/** The recursive part of `m3fsck`: `collect_blocks_and_inodes` with its two bitmaps. */
module FsckCollect {
  import opened Extents
  import opened FsckSpec

  /**
   `errx` ends the program with a complaint; what an access outside of a bitmap or a division by zero
   does is undefined.
   */
  datatype Verdict = Accept | Reject | Undefined

  class Bitmap {
    const bits: array<bool>

    ghost function Marked(): set<nat>
      reads bits
    {
      set i: nat | i < bits.Length && bits[i]
    }

    ghost function Unmarked(): set<nat>
      reads bits
    {
      set i: nat | i < bits.Length && !bits[i]
    }

    constructor (total: nat)
      ensures fresh(bits) && bits.Length == Capacity(total) && Marked() == {}
    {
      bits := new bool[Capacity(total)](_ => false);
    }

    method Set(i: nat)
      requires i < bits.Length
      modifies bits
      ensures Marked() == old(Marked()) + {i} && Unmarked() == old(Unmarked()) - {i}
      ensures forall j :: 0 <= j < bits.Length ==> bits[j] == (old(bits[j]) || j == i)
    {
      bits[i] := true;
    }
  }

  // ---------------------------------------------------------------- what has been collected

  /** The inode is complete: it is intact, its blocks are claimed, its children are marked. */
  ghost predicate NodeDone(img: Image, m: set<nat>, cl: Claims, x: nat)
    requires img.sb.blocksize > 0
  {
    && LocalOk(img, x)
    && Claimed(img, cl, x, |BlocksOf(img, x)|)
    && forall c :: Child(img, x, c) ==> c in m
  }

  ghost predicate AllReachable(img: Image, m: set<nat>)
    requires img.sb.blocksize > 0
  {
    forall x :: x in m ==> Reachable(img, 0, x)
  }

  /** New claims are for inodes that were not marked before. */
  ghost predicate ClaimsAdded(m0: set<nat>, cl0: Claims, cl: Claims) {
    && Extends(cl0, cl)
    && forall b :: b in cl && b !in cl0 ==> cl[b].Slot? && cl[b].ino !in m0
  }

  /** No block of the inode from the `k`th on was claimed yet. */
  ghost predicate NoneAbove(cl: Claims, ino: nat, k: nat) {
    forall b :: b in cl && cl[b].Slot? && cl[b].ino == ino ==> cl[b].k < k
  }

  /** What a call for inode `from` adds: inodes that are all complete. */
  ghost predicate Collected(img: Image, m0: set<nat>, m: set<nat>, cl0: Claims, cl: Claims, from: nat)
    requires img.sb.blocksize > 0
  {
    && m0 <= m && from in m && ClaimsAdded(m0, cl0, cl)
    && forall x {:trigger NodeDone(img, m, cl, x)} :: x in m && x !in m0 ==> NodeDone(img, m, cl, x)
  }

  /** In the middle of a call: inode `from` is marked, exactly its first `k` blocks are claimed. */
  ghost predicate Collecting(img: Image, m0: set<nat>, m: set<nat>, cl0: Claims, cl: Claims, from: nat, k: nat)
    requires img.sb.blocksize > 0
  {
    && m0 <= m && from in m && from !in m0 && ClaimsAdded(m0, cl0, cl)
    && Claimed(img, cl, from, k) && NoneAbove(cl, from, k)
    && forall x {:trigger NodeDone(img, m, cl, x)} :: x in m && x !in m0 && x != from ==> NodeDone(img, m, cl, x)
  }

  lemma DoneStays(img: Image, m: set<nat>, cl: Claims, m': set<nat>, cl': Claims, x: nat)
    requires img.sb.blocksize > 0 && NodeDone(img, m, cl, x) && m <= m' && Extends(cl, cl')
    ensures NodeDone(img, m', cl', x)
  {
  }

  /** A call for a child keeps the caller's state. */
  lemma AfterChild(img: Image, m0: set<nat>, m: set<nat>, m': set<nat>, cl0: Claims, cl: Claims, cl': Claims,
                   from: nat, k: nat, c: nat)
    requires img.sb.blocksize > 0 && Collecting(img, m0, m, cl0, cl, from, k) && Collected(img, m, m', cl, cl', c)
    ensures Collecting(img, m0, m', cl0, cl', from, k) && c in m'
  {
    forall x | x in m' && x !in m0 && x != from ensures NodeDone(img, m', cl', x) {
      if x in m {
        assert NodeDone(img, m, cl, x);
        DoneStays(img, m, cl, m', cl', x);
      } else {
        assert NodeDone(img, m', cl', x);
      }
    }
  }

  /** One more block of the inode is claimed. */
  lemma AfterClaim(img: Image, m0: set<nat>, m: set<nat>, cl0: Claims, cl: Claims, from: nat, k: nat)
    requires img.sb.blocksize > 0 && Collecting(img, m0, m, cl0, cl, from, k) && k < |BlocksOf(img, from)|
    requires BlocksOf(img, from)[k] !in cl
    ensures Collecting(img, m0, m, cl0, cl[BlocksOf(img, from)[k] := Slot(from, k)], from, k + 1)
  {
    var cl' := cl[BlocksOf(img, from)[k] := Slot(from, k)];
    assert Extends(cl, cl');
    forall x | x in m && x !in m0 && x != from ensures NodeDone(img, m, cl', x) {
      assert NodeDone(img, m, cl, x);
      DoneStays(img, m, cl, m, cl', x);
    }
  }

  /** In an intact tree, the next block of an inode is not claimed by anybody else. */
  lemma NextIsFree(img: Image, m: set<nat>, cl: Claims, ino: nat, k: nat)
    requires img.sb.blocksize > 0 && TreeOk(img) && AllReachable(img, m) && ino in m
    requires forall b {:trigger ClaimOk(img, m, cl, b)} :: b in cl ==> ClaimOk(img, m, cl, b)
    requires NoneAbove(cl, ino, k) && k < |BlocksOf(img, ino)|
    ensures BlocksOf(img, ino)[k] !in cl && BlocksOf(img, ino)[k] < Capacity(img.sb.totalBlocks)
  {
    assert NodeOk(img, ino);
    var b := BlocksOf(img, ino)[k];
    if b in cl {
      assert ClaimOk(img, m, cl, b);
      assert cl[b].Slot?;
      OnlyUse(img, ino, k, cl[b].ino, cl[b].k);
    }
  }

  lemma OnlyUse(img: Image, x: nat, j: nat, y: nat, k: nat)
    requires img.sb.blocksize > 0 && TreeOk(img) && Reachable(img, 0, x) && Reachable(img, 0, y)
    requires j < |BlocksOf(img, x)| && k < |BlocksOf(img, y)| && BlocksOf(img, x)[j] == BlocksOf(img, y)[k]
    ensures x == y && j == k
  {
    assert SameBlockSameUse(img, x, j, y, k);
  }

  /** The end of a call. */
  lemma Completed(img: Image, m0: set<nat>, m: set<nat>, cl0: Claims, cl: Claims, from: nat)
    requires img.sb.blocksize > 0 && Collecting(img, m0, m, cl0, cl, from, |BlocksOf(img, from)|)
    requires LocalOk(img, from) && forall c :: Child(img, from, c) ==> c in m
    ensures Collected(img, m0, m, cl0, cl, from)
  {
    assert NodeDone(img, m, cl, from);
    forall x | x in m && x !in m0 ensures NodeDone(img, m, cl, x) {
      if x != from {
        assert NodeDone(img, m, cl, x);
      }
    }
  }

  /** The blocks from `at` on are those of the entries from `i` on. */
  ghost predicate Remaining(all: seq<nat>, at: nat, es: seq<Extent>, i: nat) {
    at <= |all| && i <= |es| && all[at..] == Used(es[i..])
  }

  lemma UsedNext(all: seq<nat>, at: nat, es: seq<Extent>, i: nat)
    requires Remaining(all, at, es, i) && i < |es|
    ensures if es[i].start != 0 && es[i].length != 0
            then at < |all| && all[at] == es[i].start && Remaining(all, at + 1, es, i + 1)
            else Remaining(all, at, es, i + 1)
  {
    assert es[i..][1..] == es[i + 1..];
    if es[i].start != 0 && es[i].length != 0 {
      assert all[at..] == [es[i].start] + Used(es[i + 1..]);
      assert all[at] == all[at..][0] && all[at + 1..] == all[at..][1..];
    }
  }

  lemma AllRemain(all: seq<nat>, at: nat, es: seq<Extent>)
    requires at <= |all| && all[at..] == Used(es)
    ensures Remaining(all, at, es, 0)
  {
    assert es[0..] == es;
  }

  lemma NoneRemain(all: seq<nat>, at: nat, es: seq<Extent>)
    requires Remaining(all, at, es, |es|)
    ensures at == |all|
  {
    assert es[|es|..] == [];
  }

  /** The blocks from the double-indirect one on. */
  lemma LastBlocks(img: Image, ino: nat)
    requires img.sb.blocksize > 0
    ensures var n, all := Node(img, ino), BlocksOf(img, ino);
            var at := BlockCount(img, ino) + if n.extents > INODE_DIR_COUNT then 1 else 0;
            && at <= |all|
            && all[at..] == (if n.extents > INODE_DIR_COUNT + ExtentsPerBlock(img.sb)
                             then [n.dindirect] + Used(Table(img.tables, n.dindirect)) else [])
  {
  }

  class Checker {
    const img: Image
    const blocks: Bitmap
    const inodes: Bitmap
    ghost var claims: Claims

    /** Two empty bitmaps. */
    constructor (img: Image)
      requires img.sb.blocksize > 0
      ensures Valid() && this.img == img && claims == map[] && inodes.Marked() == {}
      ensures fresh(blocks.bits) && fresh(inodes.bits)
    {
      this.img := img;
      blocks := new Bitmap(img.sb.totalBlocks);
      inodes := new Bitmap(img.sb.totalInodes);
      claims := map[];
    }

    ghost predicate Valid()
      reads this, blocks.bits, inodes.bits
    {
      && img.sb.blocksize > 0
      && blocks.bits != inodes.bits
      && blocks.bits.Length == Capacity(img.sb.totalBlocks) && inodes.bits.Length == Capacity(img.sb.totalInodes)
      && blocks.Marked() == claims.Keys && AllReachable(img, inodes.Marked())
      && forall b {:trigger ClaimOk(img, inodes.Marked(), claims, b)} :: b in claims ==> ClaimOk(img, inodes.Marked(), claims, b)
    }

    /** `set_block`. */
    method SetBlock(b: nat, ghost slot: Slot) returns (v: Verdict)
      requires Valid() && SlotOk(img, inodes.Marked(), b, slot)
      modifies this`claims, blocks.bits
      ensures Valid()
      ensures v.Accept? <==> b < Capacity(img.sb.totalBlocks) && b !in old(claims)
      ensures v.Accept? ==> claims == old(claims)[b := slot]
    {
      if b >= blocks.bits.Length {
        return Undefined;
      }
      if blocks.bits[b] {
        assert b in blocks.Marked();
        return Reject;
      }
      assert b !in blocks.Marked();
      ghost var before := claims;
      blocks.Set(b);
      claims := claims[b := slot];
      forall x | x in claims ensures ClaimOk(img, inodes.Marked(), claims, x) {
        if x != b {
          assert ClaimOk(img, inodes.Marked(), before, x);
        }
      }
      return Accept;
    }

    /** Claims block `k` of an inode that is being collected. */
    method ClaimBlock(b: nat, ino: nat, k: nat, ghost m0: set<nat>, ghost cl0: Claims) returns (v: Verdict)
      requires Valid() && k < |BlocksOf(img, ino)| && BlocksOf(img, ino)[k] == b
      requires Collecting(img, m0, inodes.Marked(), cl0, claims, ino, k)
      modifies this`claims, blocks.bits
      ensures Valid() && inodes.Marked() == old(inodes.Marked()) && inodes.Unmarked() == old(inodes.Unmarked())
      ensures v.Accept? ==> Collecting(img, m0, inodes.Marked(), cl0, claims, ino, k + 1)
      ensures TreeOk(img) ==> v.Accept?
    {
      ghost var cl := claims;
      if TreeOk(img) {
        NextIsFree(img, inodes.Marked(), claims, ino, k);
      }
      v := SetBlock(b, Slot(ino, k));
      if v.Accept? {
        AfterClaim(img, m0, inodes.Marked(), cl0, cl, ino, k);
      }
    }

    /** The indirect block. */
    method ClaimIndirect(ino: nat, k: nat, ghost m0: set<nat>, ghost cl0: Claims) returns (v: Verdict, at: nat)
      requires Valid() && k == BlockCount(img, ino)
      requires Collecting(img, m0, inodes.Marked(), cl0, claims, ino, k)
      modifies this`claims, blocks.bits
      ensures Valid() && inodes.Marked() == old(inodes.Marked()) && inodes.Unmarked() == old(inodes.Unmarked())
      ensures at == k + if Node(img, ino).extents > INODE_DIR_COUNT then 1 else 0
      ensures v.Accept? ==> IndirectOk(Node(img, ino)) && Collecting(img, m0, inodes.Marked(), cl0, claims, ino, at)
      ensures TreeOk(img) && IndirectOk(Node(img, ino)) ==> v.Accept?
    {
      var n := Node(img, ino);
      at := k;
      if n.extents > INODE_DIR_COUNT {
        at := k + 1;
        if n.indirect == 0 {
          return Reject, at;
        }
        assert BlocksOf(img, ino)[k] == n.indirect;
        v := ClaimBlock(n.indirect, ino, k, m0, cl0);
      } else {
        v := if n.indirect != 0 then Reject else Accept;
      }
    }

    /** The double-indirect block, of which `count` entries are in use. */
    method ClaimTable(ino: nat, at: nat, count: nat, ghost m0: set<nat>, ghost cl0: Claims) returns (v: Verdict)
      requires Valid() && at < |BlocksOf(img, ino)|
      requires BlocksOf(img, ino)[at..]
            == [Node(img, ino).dindirect] + Used(Table(img.tables, Node(img, ino).dindirect))
      requires Collecting(img, m0, inodes.Marked(), cl0, claims, ino, at)
      modifies this`claims, blocks.bits
      ensures Valid() && inodes.Marked() == old(inodes.Marked()) && inodes.Unmarked() == old(inodes.Unmarked())
      ensures v.Accept? ==>
                && TableOk(Table(img.tables, Node(img, ino).dindirect), count)
                && Collecting(img, m0, inodes.Marked(), cl0, claims, ino, |BlocksOf(img, ino)|)
      ensures TreeOk(img) && TableOk(Table(img.tables, Node(img, ino).dindirect), count) ==> v.Accept?
    {
      ghost var all := BlocksOf(img, ino);
      assert all[at] == all[at..][0] && all[at + 1..] == all[at..][1..];
      v := ClaimBlock(Node(img, ino).dindirect, ino, at, m0, cl0);
      if v.Accept? {
        v := ClaimUsed(ino, at + 1, count, m0, cl0);
      }
    }

    /** The double-indirect block and what it points to. */
    method ClaimDoubleIndirect(ino: nat, at: nat, ghost m0: set<nat>, ghost cl0: Claims) returns (v: Verdict)
      requires Valid() && at == BlockCount(img, ino) + if Node(img, ino).extents > INODE_DIR_COUNT then 1 else 0
      requires Collecting(img, m0, inodes.Marked(), cl0, claims, ino, at)
      modifies this`claims, blocks.bits
      ensures Valid() && inodes.Marked() == old(inodes.Marked()) && inodes.Unmarked() == old(inodes.Unmarked())
      ensures v.Accept? ==>
                DoubleIndirectOk(img, Node(img, ino)) && Collecting(img, m0, inodes.Marked(), cl0, claims, ino, |BlocksOf(img, ino)|)
      ensures TreeOk(img) && DoubleIndirectOk(img, Node(img, ino)) ==> v.Accept?
    {
      var n, epb := Node(img, ino), ExtentsPerBlock(img.sb);
      LastBlocks(img, ino);
      if n.extents > INODE_DIR_COUNT + epb {
        if n.dindirect == 0 || n.dindirect !in img.tables {
          return Reject;
        }
        if epb == 0 {
          return Undefined;
        }
        v := ClaimTable(ino, at, DivUp(n.extents - (INODE_DIR_COUNT + epb), epb), m0, cl0);
      } else {
        v := if n.dindirect != 0 then Reject else Accept;
      }
    }

    /** The blocks of the extents. */
    method ClaimPointers(ino: nat, k: nat, ghost m0: set<nat>, ghost cl0: Claims) returns (v: Verdict)
      requires Valid() && k == BlockCount(img, ino)
      requires Collecting(img, m0, inodes.Marked(), cl0, claims, ino, k)
      modifies this`claims, blocks.bits
      ensures Valid() && inodes.Marked() == old(inodes.Marked()) && inodes.Unmarked() == old(inodes.Unmarked())
      ensures v.Accept? ==>
                PointersOk(img, ino) && Collecting(img, m0, inodes.Marked(), cl0, claims, ino, |BlocksOf(img, ino)|)
      ensures TreeOk(img) && PointersOk(img, ino) ==> v.Accept?
    {
      var at;
      v, at := ClaimIndirect(ino, k, m0, cl0);
      if v.Accept? {
        v := ClaimDoubleIndirect(ino, at, m0, cl0);
      }
    }

    /** One entry of the double-indirect block. */
    method ClaimEntry(e: Extent, used: bool, ino: nat, at: nat, ghost m0: set<nat>, ghost cl0: Claims) returns (v: Verdict)
      requires Valid() && Collecting(img, m0, inodes.Marked(), cl0, claims, ino, at)
      requires e.start != 0 && e.length != 0 ==> at < |BlocksOf(img, ino)| && BlocksOf(img, ino)[at] == e.start
      modifies this`claims, blocks.bits
      ensures Valid() && inodes.Marked() == old(inodes.Marked()) && inodes.Unmarked() == old(inodes.Unmarked())
      ensures v.Accept? ==>
                EntryOk(e, used) && Collecting(img, m0, inodes.Marked(), cl0, claims, ino, if used then at + 1 else at)
      ensures TreeOk(img) && EntryOk(e, used) ==> v.Accept?
    {
      if used && (e.length == 0 || e.start == 0) {
        return Reject;
      }
      if !used && (e.length != 0 || e.start != 0) {
        return Reject;
      }
      if e.start == 0 || e.length == 0 {
        return Accept;
      }
      if e.length != 1 {
        return Reject;
      }
      v := ClaimBlock(e.start, ino, at, m0, cl0);
    }

    /** The loop over the entries of the double-indirect block. */
    method ClaimUsed(ino: nat, k: nat, count: nat, ghost m0: set<nat>, ghost cl0: Claims) returns (v: Verdict)
      requires Valid()
      requires k <= |BlocksOf(img, ino)| && BlocksOf(img, ino)[k..] == Used(Table(img.tables, Node(img, ino).dindirect))
      requires Collecting(img, m0, inodes.Marked(), cl0, claims, ino, k)
      modifies this`claims, blocks.bits
      ensures Valid() && inodes.Marked() == old(inodes.Marked()) && inodes.Unmarked() == old(inodes.Unmarked())
      ensures v.Accept? ==>
                && TableOk(Table(img.tables, Node(img, ino).dindirect), count)
                && Collecting(img, m0, inodes.Marked(), cl0, claims, ino, |BlocksOf(img, ino)|)
      ensures TreeOk(img) && TableOk(Table(img.tables, Node(img, ino).dindirect), count) ==> v.Accept?
    {
      var es := Table(img.tables, Node(img, ino).dindirect);
      ghost var all := BlocksOf(img, ino);
      var at: nat, i: nat := k, 0;
      AllRemain(all, k, es);
      while i < |es|
        invariant 0 <= i <= |es| && Valid()
        invariant inodes.Marked() == old(inodes.Marked()) && inodes.Unmarked() == old(inodes.Unmarked())
        invariant Remaining(all, at, es, i)
        invariant Collecting(img, m0, inodes.Marked(), cl0, claims, ino, at)
        invariant forall j :: 0 <= j < i ==> EntryOk(es[j], j < count)
      {
        UsedNext(all, at, es, i);
        v := ClaimEntry(es[i], i < count, ino, at, m0, cl0);
        if !v.Accept? {
          return;
        }
        at, i := if i < count then at + 1 else at, i + 1;
      }
      NoneRemain(all, at, es);
      return Accept;
    }

    /** One child of a directory. */
    method CollectChild(ino: nat, c: nat, k: nat, ghost m0: set<nat>, ghost cl0: Claims, ghost left: set<nat>) returns (v: Verdict)
      requires Valid() && inodes.Unmarked() <= left && Child(img, ino, c)
      requires Collecting(img, m0, inodes.Marked(), cl0, claims, ino, k)
      modifies this`claims, blocks.bits, inodes.bits
      ensures Valid() && inodes.Unmarked() <= left && old(inodes.Marked()) <= inodes.Marked()
      ensures v.Accept? ==> Collecting(img, m0, inodes.Marked(), cl0, claims, ino, k) && c in inodes.Marked()
      ensures TreeOk(img) ==> v.Accept?
      decreases left, 1
    {
      ghost var m, cl := inodes.Marked(), claims;
      ReachChild(img, 0, ino, c);
      v := Collect(c);
      if v.Accept? {
        AfterChild(img, m0, m, inodes.Marked(), cl0, cl, claims, ino, k, c);
      }
    }

    /** The loop over the entries of a directory block. */
    method WalkBlock(ino: nat, b: nat, k: nat, ghost m0: set<nat>, ghost cl0: Claims, ghost left: set<nat>) returns (v: Verdict)
      requires Valid() && inodes.Unmarked() <= left
      requires Collecting(img, m0, inodes.Marked(), cl0, claims, ino, k)
      requires forall c :: c in ChildrenFrom(img, b, 0) ==> Child(img, ino, c)
      modifies this`claims, blocks.bits, inodes.bits
      ensures Valid() && inodes.Unmarked() <= left && old(inodes.Marked()) <= inodes.Marked()
      ensures v.Accept? ==>
                && Collecting(img, m0, inodes.Marked(), cl0, claims, ino, k)
                && forall c :: c in ChildrenFrom(img, b, 0) ==> c in inodes.Marked()
      ensures TreeOk(img) ==> v.Accept?
      decreases left, 2
    {
      var off := 0;
      while EntryAt(img, b, off).next > 0 && off < img.sb.blocksize
        invariant Valid() && inodes.Unmarked() <= left && old(inodes.Marked()) <= inodes.Marked()
        invariant Collecting(img, m0, inodes.Marked(), cl0, claims, ino, k)
        invariant forall c :: c in ChildrenFrom(img, b, off) ==> c in ChildrenFrom(img, b, 0)
        invariant forall c :: c in ChildrenFrom(img, b, 0) ==> c in inodes.Marked() || c in ChildrenFrom(img, b, off)
        decreases img.sb.blocksize - off
      {
        var e := EntryAt(img, b, off);
        if !IsDot(e) {
          assert e.nodeno in ChildrenFrom(img, b, off);
          v := CollectChild(ino, e.nodeno, k, m0, cl0, left);
          if !v.Accept? {
            return;
          }
        }
        off := off + e.next;
      }
      return Accept;
    }

    /** Data block `i` of an inode, with everything below it if it is part of a directory. */
    method CollectBlock(ino: nat, i: nat, ghost m0: set<nat>, ghost cl0: Claims, ghost left: set<nat>) returns (v: Verdict)
      requires Valid() && inodes.Unmarked() <= left && i < BlockCount(img, ino)
      requires Collecting(img, m0, inodes.Marked(), cl0, claims, ino, i)
      modifies this`claims, blocks.bits, inodes.bits
      ensures Valid() && inodes.Unmarked() <= left && old(inodes.Marked()) <= inodes.Marked()
      ensures v.Accept? ==>
                && Collecting(img, m0, inodes.Marked(), cl0, claims, ino, i + 1) && DataBlockOk(img, ino, i)
                && (Node(img, ino).isDir ==>
                      forall c :: c in ChildrenFrom(img, DataBlock(img, ino, i), 0) ==> c in inodes.Marked())
      ensures TreeOk(img) && DataBlockOk(img, ino, i) ==> v.Accept?
      decreases left, 3
    {
      var b := FindBlock(img.tables, Node(img, ino), i);
      if b == 0 || (Node(img, ino).isDir && b !in img.dirs) {
        return Reject;
      }
      v := ClaimBlock(b, ino, i, m0, cl0);
      if v.Accept? && Node(img, ino).isDir {
        forall c | c in ChildrenFrom(img, b, 0) ensures Child(img, ino, c) {
          assert ChildWithin(img, ino, BlockCount(img, ino), c);
        }
        v := WalkBlock(ino, b, i + 1, m0, cl0, left);
      }
    }

    /** The loop over the data blocks of an inode. */
    method CollectData(ino: nat, ghost m0: set<nat>, ghost cl0: Claims, ghost left: set<nat>) returns (v: Verdict)
      requires Valid() && inodes.Unmarked() <= left
      requires Collecting(img, m0, inodes.Marked(), cl0, claims, ino, 0)
      modifies this`claims, blocks.bits, inodes.bits
      ensures Valid() && inodes.Unmarked() <= left && old(inodes.Marked()) <= inodes.Marked()
      ensures v.Accept? ==>
                && Collecting(img, m0, inodes.Marked(), cl0, claims, ino, BlockCount(img, ino))
                && (forall i :: 0 <= i < BlockCount(img, ino) ==> DataBlockOk(img, ino, i))
                && forall c :: Child(img, ino, c) ==> c in inodes.Marked()
      ensures TreeOk(img) && (forall i :: 0 <= i < BlockCount(img, ino) ==> DataBlockOk(img, ino, i)) ==> v.Accept?
      decreases left, 4
    {
      var count := BlockCount(img, ino);
      var i := 0;
      while i < count
        invariant 0 <= i <= count && Valid() && inodes.Unmarked() <= left && old(inodes.Marked()) <= inodes.Marked()
        invariant Collecting(img, m0, inodes.Marked(), cl0, claims, ino, i)
        invariant forall j :: 0 <= j < i ==> DataBlockOk(img, ino, j)
        invariant Node(img, ino).isDir ==> forall c :: ChildWithin(img, ino, i, c) ==> c in inodes.Marked()
      {
        v := CollectBlock(ino, i, m0, cl0, left);
        if !v.Accept? {
          return;
        }
        i := i + 1;
      }
      return Accept;
    }

    /**
     `collect_blocks_and_inodes`: every inode below `ino` is complete afterwards, and an intact tree is not
     rejected.
     */
    method Collect(ino: nat) returns (v: Verdict)
      requires Valid() && Reachable(img, 0, ino)
      modifies this`claims, blocks.bits, inodes.bits
      ensures Valid() && old(inodes.Marked()) <= inodes.Marked() && inodes.Unmarked() <= old(inodes.Unmarked())
      ensures v.Accept? ==> Collected(img, old(inodes.Marked()), inodes.Marked(), old(claims), claims, ino)
      ensures TreeOk(img) ==> v.Accept?
      decreases inodes.Unmarked(), 0
    {
      assert TreeOk(img) ==> NodeOk(img, ino);
      if ino >= inodes.bits.Length {
        return Undefined;
      }
      if inodes.bits[ino] {
        return Accept;
      }
      if ino !in img.inodes {
        return Reject;
      }
      ghost var m0, cl0 := inodes.Marked(), claims;
      ghost var left := inodes.Unmarked() - {ino};
      assert ino in inodes.Unmarked();
      inodes.Set(ino);
      forall b | b in claims ensures ClaimOk(img, inodes.Marked(), claims, b) {
        assert ClaimOk(img, m0, claims, b);
      }
      if Node(img, ino).inode != ino {
        return Reject;
      }
      assert NoneAbove(claims, ino, 0) by {
        assert forall b :: b in claims ==> ClaimOk(img, m0, claims, b);
      }
      v := CollectData(ino, m0, cl0, left);
      if !v.Accept? {
        return;
      }
      v := ClaimPointers(ino, BlockCount(img, ino), m0, cl0);
      if v.Accept? {
        Completed(img, m0, inodes.Marked(), cl0, claims, ino);
      }
    }
  }
}
