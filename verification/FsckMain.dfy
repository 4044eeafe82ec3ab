/** The checks of `m3fsck` around the collection, and what acceptance means. */
module FsckMain {
  import opened Options
  import opened Extents
  import opened FsckSpec
  import opened FsckCollect

  /** The number of clear bits among the first `n`. */
  function Clear(bits: seq<bool>, n: nat): nat
    requires n <= |bits|
  {
    if n == 0 then 0 else Clear(bits, n - 1) + (if bits[n - 1] then 0 else 1)
  }

  /** A block that belongs to the file system itself or to an inode of the tree. */
  ghost predicate InUse(img: Image, b: nat)
    requires img.sb.blocksize > 0
  {
    b < FirstDataBlock(img.sb) || exists x :: Reachable(img, 0, x) && b in BlocksOf(img, x)
  }

  /** The bitmap on disk says exactly what is in use, and the number of free ones is right. */
  ghost predicate SaysUsed(onDisk: seq<bool>, total: nat, free: nat, used: iset<nat>) {
    && total <= |onDisk| && free == Clear(onDisk, total)
    && forall i: nat :: i < total ==> (onDisk[i] <==> i in used)
  }

  /** Nothing below `first` is free.  If nothing at all is free, there has to be room in the last word. */
  ghost predicate FirstOk(total: nat, first: nat, used: iset<nat>) {
    && first <= total && (forall i: nat :: i < first ==> i in used)
    && (total % 32 == 0 ==> exists i: nat :: i < total && i !in used)
  }

  ghost function Inodes(img: Image): iset<nat>
    requires img.sb.blocksize > 0
  {
    iset x: nat | Reachable(img, 0, x)
  }

  ghost function Blocks(img: Image): iset<nat>
    requires img.sb.blocksize > 0
  {
    iset b: nat | InUse(img, b)
  }

  /** The bitmaps and the counters fit to the tree. */
  ghost predicate BitmapsOk(img: Image)
    requires img.sb.blocksize > 0
  {
    && SaysUsed(img.inodeBitmap, img.sb.totalInodes, img.sb.freeInodes, Inodes(img))
    && SaysUsed(img.blockBitmap, img.sb.totalBlocks, img.sb.freeBlocks, Blocks(img))
    && FirstOk(img.sb.totalInodes, img.sb.firstFreeInode, Inodes(img))
    && FirstOk(img.sb.totalBlocks, img.sb.firstFreeBlock, Blocks(img))
  }

  /** What the checker accepts. */
  ghost predicate Intact(img: Image) {
    SuperBlockOk(img.sb) && FirstDataBlock(img.sb) <= Capacity(img.sb.totalBlocks) && TreeOk(img) && BitmapsOk(img)
  }

  /** The first bits of a bitmap are those of a set. */
  ghost predicate Holds(bm: Bitmap, total: nat, used: iset<nat>)
    reads bm.bits
  {
    bm.bits.Length == Capacity(total) && forall i: nat :: i < total ==> (bm.bits[i] <==> i in used)
  }

  /** `check_bitmap` and `compare_bitmaps`. */
  method CheckBitmap(bm: Bitmap, total: nat, free: nat, onDisk: seq<bool>, ghost used: iset<nat>) returns (v: Verdict)
    requires Holds(bm, total, used)
    ensures v.Accept? <==> SaysUsed(onDisk, total, free, used)
  {
    if |onDisk| < total {
      return Reject;
    }
    var count, i: nat := 0, 0;
    while i < total
      invariant 0 <= i <= total && count == Clear(onDisk, i)
    {
      if !onDisk[i] {
        count := count + 1;
      }
      i := i + 1;
    }
    if count != free {
      return Reject;
    }
    i := 0;
    while i < total
      invariant 0 <= i <= total && forall j: nat :: j < i ==> (onDisk[j] <==> bm.bits[j])
    {
      if bm.bits[i] != onDisk[i] {
        return Reject;
      }
      i := i + 1;
    }
    return Accept;
  }

  /**
   `first_free`: it looks at the bit before it compares the index, so if all bits are set and fill the last
   word, it reads behind the bitmap.
   */
  method FirstFree(bm: Bitmap, total: nat) returns (r: Option<nat>)
    requires bm.bits.Length == Capacity(total)
    ensures r.None? <==> total % 32 == 0 && forall j: nat :: j < total ==> bm.bits[j]
    ensures r.Some? ==>
              && r.value <= total && (forall j: nat :: j < r.value ==> bm.bits[j])
              && (r.value < total ==> !bm.bits[r.value])
  {
    var i: nat := 0;
    while i < bm.bits.Length && bm.bits[i] && i < total
      invariant 0 <= i <= total && forall j: nat :: j < i ==> bm.bits[j]
    {
      i := i + 1;
    }
    if i == bm.bits.Length {
      return None;
    }
    return Some(i);
  }

  /** The comparison with the first free number in the superblock. */
  method CheckFirst(bm: Bitmap, total: nat, first: nat, ghost used: iset<nat>) returns (v: Verdict)
    requires Holds(bm, total, used)
    ensures v.Accept? <==> FirstOk(total, first, used)
  {
    var r := FirstFree(bm, total);
    if r.None? {
      return Undefined;
    }
    return if first > r.value then Reject else Accept;
  }

  /** Every inode that is reachable from the root was collected. */
  lemma AllCollected(img: Image, m: set<nat>, cl0: Claims, cl: Claims, x: nat)
    requires img.sb.blocksize > 0 && Collected(img, {}, m, cl0, cl, 0) && AllReachable(img, m)
    ensures Reachable(img, 0, x) <==> x in m
    ensures x in m ==> NodeDone(img, m, cl, x)
  {
    forall x, c | x in m && Child(img, x, c) ensures c in m {
      assert NodeDone(img, m, cl, x);
    }
    if Reachable(img, 0, x) {
      var p :| Path(img, p) && p[0] == 0 && p[|p| - 1] == x;
      ClosedContainsPath(img, m, p);
    }
  }

  /** All claims are for blocks in range, and the blocks of the file system itself are claimed by itself. */
  ghost predicate ClaimsInRange(img: Image, cl: Claims)
    requires img.sb.blocksize > 0
  {
    && (forall b: nat :: b < FirstDataBlock(img.sb) ==> b in cl && cl[b] == Meta)
    && (forall b :: b in cl ==> b < Capacity(img.sb.totalBlocks))
  }

  lemma CollectedIsOk(img: Image, m: set<nat>, cl0: Claims, cl: Claims)
    requires img.sb.blocksize > 0 && Collected(img, {}, m, cl0, cl, 0) && AllReachable(img, m)
    requires ClaimsInRange(img, cl) && forall x :: x in m ==> x < Capacity(img.sb.totalInodes)
    ensures TreeOk(img)
  {
    forall x | Reachable(img, 0, x) ensures NodeOk(img, x) {
      AllCollected(img, m, cl0, cl, x);
      CollectedInRange(img, m, cl, x);
    }
    forall x, j, y, k | Reachable(img, 0, x) && Reachable(img, 0, y) && 0 <= j < |BlocksOf(img, x)| && 0 <= k < |BlocksOf(img, y)|
      ensures SameBlockSameUse(img, x, j, y, k)
    {
      AllCollected(img, m, cl0, cl, x);
      AllCollected(img, m, cl0, cl, y);
      ClaimsAreUnique(img, cl, x, j, y, k);
    }
  }

  lemma CollectedInRange(img: Image, m: set<nat>, cl: Claims, x: nat)
    requires img.sb.blocksize > 0 && NodeDone(img, m, cl, x)
    requires ClaimsInRange(img, cl) && x < Capacity(img.sb.totalInodes)
    ensures InRange(img, x)
  {
  }

  /** The marked blocks are those that are in use. */
  lemma CollectedIsInUse(img: Image, m: set<nat>, cl0: Claims, cl: Claims, b: nat)
    requires img.sb.blocksize > 0 && Collected(img, {}, m, cl0, cl, 0) && AllReachable(img, m) && ClaimsInRange(img, cl)
    requires forall x {:trigger ClaimOk(img, m, cl, x)} :: x in cl ==> ClaimOk(img, m, cl, x)
    ensures b in cl <==> InUse(img, b)
  {
    if b in cl {
      assert ClaimOk(img, m, cl, b);
      if cl[b].Slot? {
        AllCollected(img, m, cl0, cl, cl[b].ino);
      }
    }
    if InUse(img, b) && b >= FirstDataBlock(img.sb) {
      var x :| Reachable(img, 0, x) && b in BlocksOf(img, x);
      AllCollected(img, m, cl0, cl, x);
    }
  }

  /** Marks the blocks of the file system itself. */
  method MarkMeta(c: Checker) returns (v: Verdict)
    requires c.Valid() && c.claims == map[] && c.inodes.Marked() == {}
    modifies c`claims, c.blocks.bits
    ensures c.Valid() && c.inodes.Marked() == {}
    ensures v.Accept? <==> FirstDataBlock(c.img.sb) <= Capacity(c.img.sb.totalBlocks)
    ensures v.Accept? ==> forall b: nat :: b < FirstDataBlock(c.img.sb) ==> b in c.claims && c.claims[b] == Meta
  {
    var b := 0;
    while b < FirstDataBlock(c.img.sb)
      invariant 0 <= b <= FirstDataBlock(c.img.sb) && c.Valid() && c.inodes.Marked() == {}
      invariant b <= Capacity(c.img.sb.totalBlocks)
      invariant forall x :: x in c.claims <==> 0 <= x < b
      invariant forall x :: x in c.claims ==> c.claims[x] == Meta
    {
      v := c.SetBlock(b, Meta);
      if !v.Accept? {
        return;
      }
      b := b + 1;
    }
    return Accept;
  }

  /** The checks of `main` on the superblock. */
  predicate SuperBlockOk(sb: SuperBlock) {
    && sb.checksum == Checksum(sb)
    && sb.totalBlocks != 0 && sb.totalInodes != 0
    && sb.blocksize != 0 && PowerOf2(sb.blocksize)
    && sb.freeBlocks <= sb.totalBlocks && sb.freeInodes <= sb.totalInodes
  }

  /** The walk over the whole tree, from the root. */
  method CheckTree(c: Checker) returns (v: Verdict)
    requires c.Valid() && c.inodes.Marked() == {}
    requires forall b: nat :: b < FirstDataBlock(c.img.sb) ==> b in c.claims && c.claims[b] == Meta
    modifies c`claims, c.blocks.bits, c.inodes.bits
    ensures c.Valid() && (v.Accept? <==> TreeOk(c.img))
    ensures v.Accept? ==>
              && Holds(c.inodes, c.img.sb.totalInodes, Inodes(c.img))
              && Holds(c.blocks, c.img.sb.totalBlocks, Blocks(c.img))
  {
    ghost var cl0 := c.claims;
    ReachSelf(c.img, 0);
    v := c.Collect(0);
    if v.Accept? {
      ghost var m, cl := c.inodes.Marked(), c.claims;
      assert forall b :: b in cl ==> b in c.blocks.Marked();
      CollectedIsOk(c.img, m, cl0, cl);
      forall x: nat | x < c.img.sb.totalInodes ensures c.inodes.bits[x] <==> x in Inodes(c.img) {
        AllCollected(c.img, m, cl0, cl, x);
        assert x in m <==> c.inodes.bits[x];
      }
      forall b: nat | b < c.img.sb.totalBlocks ensures c.blocks.bits[b] <==> b in Blocks(c.img) {
        CollectedIsInUse(c.img, m, cl0, cl, b);
        assert b in c.blocks.Marked() <==> c.blocks.bits[b];
      }
    }
  }

  /** The two comparisons, and then the two first free numbers. */
  method CheckBitmaps(c: Checker) returns (v: Verdict)
    requires c.img.sb.blocksize > 0
    requires Holds(c.inodes, c.img.sb.totalInodes, Inodes(c.img)) && Holds(c.blocks, c.img.sb.totalBlocks, Blocks(c.img))
    ensures v.Accept? <==> BitmapsOk(c.img)
  {
    var sb := c.img.sb;
    v := CheckBitmap(c.inodes, sb.totalInodes, sb.freeInodes, c.img.inodeBitmap, Inodes(c.img));
    if !v.Accept? {
      return;
    }
    v := CheckBitmap(c.blocks, sb.totalBlocks, sb.freeBlocks, c.img.blockBitmap, Blocks(c.img));
    if !v.Accept? {
      return;
    }
    v := CheckFirst(c.inodes, sb.totalInodes, sb.firstFreeInode, Inodes(c.img));
    if !v.Accept? {
      return;
    }
    v := CheckFirst(c.blocks, sb.totalBlocks, sb.firstFreeBlock, Blocks(c.img));
  }

  /** `main`: exactly the intact images are accepted. */
  method Check(img: Image) returns (v: Verdict)
    ensures v.Accept? <==> Intact(img)
  {
    if !SuperBlockOk(img.sb) {
      return Reject;
    }
    var c := new Checker(img);
    v := MarkMeta(c);
    if !v.Accept? {
      return;
    }
    v := CheckTree(c);
    if v.Accept? {
      v := CheckBitmaps(c);
    }
  }

  // ---------------------------------------------------------------- the unused bits of the last word

  /** All inodes and blocks in use are among those that the superblock announces. */
  ghost predicate WithinTotals(img: Image)
    requires img.sb.blocksize > 0
  {
    && (forall x :: x in Inodes(img) ==> x < img.sb.totalInodes)
    && (forall b :: b in Blocks(img) ==> b < img.sb.totalBlocks)
  }

  /** The members of a set that are smaller than `n`. */
  ghost function Below(used: iset<nat>, n: nat): (r: set<nat>)
    ensures forall i :: i in r <==> i < n && i in used
  {
    if n == 0 then {}
    else if n - 1 in used then Below(used, n - 1) + {n - 1}
    else Below(used, n - 1)
  }

  /** Those that a bitmap for `total` bits has room for. */
  ghost function Held(used: iset<nat>, total: nat): set<nat> {
    Below(used, Capacity(total))
  }

  lemma {:induction false} CountBelow(onDisk: seq<bool>, total: nat, used: iset<nat>)
    requires total <= |onDisk| && forall i: nat :: i < total ==> (onDisk[i] <==> i in used)
    ensures |Below(used, total)| + Clear(onDisk, total) == total
  {
    if total > 0 {
      CountBelow(onDisk, total - 1, used);
    }
  }

  lemma {:induction false} SameSize(a: set<nat>, b: set<nat>)
    requires a <= b
    ensures |a| == |b| <==> a == b
    decreases a
  {
    if a != {} {
      var x :| x in a;
      SameSize(a - {x}, b - {x});
    }
  }

  /** The members behind the last announced one are exactly those that the free counter does not know. */
  lemma CountersTell(onDisk: seq<bool>, total: nat, free: nat, used: iset<nat>)
    requires SaysUsed(onDisk, total, free, used) && forall i :: i in used ==> i < Capacity(total)
    ensures (forall i :: i in used ==> i < total) <==> |Held(used, total)| == total - free
  {
    CountBelow(onDisk, total, used);
    assert Below(used, total) <= Held(used, total);
    SameSize(Below(used, total), Held(used, total));
    if i :| i in used && i >= total {
      assert i in Held(used, total) && i !in Below(used, total);
    } else {
      assert Below(used, total) == Held(used, total);
    }
  }

  lemma IntactIsHeld(img: Image)
    requires Intact(img)
    ensures forall x :: x in Inodes(img) ==> x < Capacity(img.sb.totalInodes)
    ensures forall b :: b in Blocks(img) ==> b < Capacity(img.sb.totalBlocks)
  {
    forall x | x in Inodes(img) ensures x < Capacity(img.sb.totalInodes) {
      assert NodeOk(img, x);
    }
    forall b | b in Blocks(img) ensures b < Capacity(img.sb.totalBlocks) {
      if b >= FirstDataBlock(img.sb) {
        var x :| Reachable(img, 0, x) && b in BlocksOf(img, x);
        assert NodeOk(img, x);
      }
    }
  }

  /** An accepted image stays within the totals exactly if the counters account for everything in use. */
  lemma WithinTotalsExactly(img: Image)
    requires Intact(img)
    ensures WithinTotals(img) <==>
              && |Held(Inodes(img), img.sb.totalInodes)| == img.sb.totalInodes - img.sb.freeInodes
              && |Held(Blocks(img), img.sb.totalBlocks)| == img.sb.totalBlocks - img.sb.freeBlocks
  {
    IntactIsHeld(img);
    CountersTell(img.inodeBitmap, img.sb.totalInodes, img.sb.freeInodes, Inodes(img));
    CountersTell(img.blockBitmap, img.sb.totalBlocks, img.sb.freeBlocks, Blocks(img));
  }

  lemma FullBitmapsStayWithin(img: Image)
    requires Intact(img)
    requires Capacity(img.sb.totalInodes) == img.sb.totalInodes && Capacity(img.sb.totalBlocks) == img.sb.totalBlocks
    ensures WithinTotals(img)
  {
    IntactIsHeld(img);
  }

  lemma WholeWords(n: nat)
    requires n % 32 == 0
    ensures Capacity(n) == n
  {
  }

  /** With whole words of bits it always does. */
  lemma WholeWordsStayWithin(img: Image)
    requires Intact(img)
    ensures img.sb.totalInodes % 32 == 0 && img.sb.totalBlocks % 32 == 0 ==> WithinTotals(img)
  {
    if img.sb.totalInodes % 32 == 0 && img.sb.totalBlocks % 32 == 0 {
      WholeWords(img.sb.totalInodes);
      WholeWords(img.sb.totalBlocks);
      FullBitmapsStayWithin(img);
    }
  }

  // ---------------------------------------------------------------- images

  /**
   A file system with 8 inodes and 8 blocks, 4 of which are for the file system itself, and a root directory
   without entries.  The directory has no block or, if `block` is not 0, that one.
   */
  function Small(block: nat): Image {
    var sb := SuperBlock(4096, 8, 8, 7, 4, 1, 4, 0);
    var root := if block == 0 then INode(0, true, 0, 0, [], 0, 0) else INode(0, true, 4096, 1, [Extent(block, 1)], 0, 0);
    Image(sb.(checksum := Checksum(sb)), map[0 := root], map[], map[block := map[]],
          [true, false, false, false, false, false, false, false],
          [true, true, true, true, false, false, false, false])
  }

  function RootBlocks(block: nat): seq<nat> {
    if block == 0 then [] else [block]
  }

  lemma SmallRoot(block: nat)
    requires block < BLOCKNO
    ensures BlocksOf(Small(block), 0) == RootBlocks(block)
    ensures forall c :: !Child(Small(block), 0, c)
    ensures LocalOk(Small(block), 0)
  {
    var img := Small(block);
    if block == 0 {
      assert BlockCount(img, 0) == 0;
    } else {
      assert BlockCount(img, 0) == 1;
      assert DataBlock(img, 0, 0) == block;
      assert ChildrenFrom(img, block, 0) == [];
    }
  }

  lemma SmallTree(block: nat, x: nat)
    requires block < BLOCKNO
    ensures Reachable(Small(block), 0, x) <==> x == 0
  {
    var img := Small(block);
    SmallRoot(block);
    if Reachable(img, 0, x) {
      var p :| Path(img, p) && p[0] == 0 && p[|p| - 1] == x;
      ClosedContainsPath(img, {0}, p);
    }
    ReachSelf(img, 0);
  }

  lemma SmallSuperBlock(block: nat)
    ensures FirstDataBlock(Small(block).sb) == 4 && SuperBlockOk(Small(block).sb) && Capacity(8) == 32
  {
  }

  lemma SmallTreeOk(block: nat)
    requires block == 0 || 8 <= block < 32
    ensures TreeOk(Small(block))
  {
    var img := Small(block);
    SmallSuperBlock(block);
    SmallRoot(block);
    assert InRange(img, 0);
    forall x | Reachable(img, 0, x) ensures x == 0 {
      SmallTree(block, x);
    }
  }

  lemma SmallUse(block: nat, x: nat)
    requires block < BLOCKNO
    ensures x in Inodes(Small(block)) <==> x == 0
    ensures x in Blocks(Small(block)) <==> x < 4 || x in RootBlocks(block)
  {
    var img := Small(block);
    SmallSuperBlock(block);
    SmallRoot(block);
    forall y: nat ensures Reachable(img, 0, y) <==> y == 0 {
      SmallTree(block, y);
    }
  }

  lemma SmallInodes(block: nat, inodes: iset<nat>)
    requires block < BLOCKNO && inodes == Inodes(Small(block))
    ensures SaysUsed(Small(block).inodeBitmap, 8, 7, inodes) && FirstOk(8, 1, inodes)
  {
    forall x: nat ensures x in inodes <==> x == 0 {
      SmallUse(block, x);
    }
    SmallCounts(block);
  }

  lemma SmallBlocks(block: nat, blocks: iset<nat>)
    requires block == 0 || 8 <= block < 32
    requires blocks == Blocks(Small(block))
    ensures SaysUsed(Small(block).blockBitmap, 8, 4, blocks) && FirstOk(8, 4, blocks)
  {
    forall x: nat ensures x < 8 ==> (x in blocks <==> x < 4) {
      SmallUse(block, x);
    }
    SmallCounts(block);
  }

  lemma SmallCounts(block: nat)
    ensures Clear(Small(block).inodeBitmap, 8) == 7 && Clear(Small(block).blockBitmap, 8) == 4
  {
  }

  lemma SmallIsIntact(block: nat)
    requires block == 0 || 8 <= block < 32
    ensures Intact(Small(block))
  {
    SmallSuperBlock(block);
    SmallTreeOk(block);
    SmallInodes(block, Inodes(Small(block)));
    SmallBlocks(block, Blocks(Small(block)));
  }

  /** There are images that the checker accepts. */
  lemma EmptyIsIntact()
    ensures Intact(Small(0)) && WithinTotals(Small(0))
  {
    SmallIsIntact(0);
    forall x: nat ensures (x in Inodes(Small(0)) ==> x < 8) && (x in Blocks(Small(0)) ==> x < 8) {
      SmallUse(0, x);
    }
  }

  /** One of them has its root directory in block 20 of 8. */
  lemma PaddingIsAccepted()
    ensures Intact(Small(20)) && Small(20).sb.totalBlocks == 8 && 20 in Blocks(Small(20)) && !WithinTotals(Small(20))
  {
    SmallIsIntact(20);
    SmallUse(20, 20);
  }
}
