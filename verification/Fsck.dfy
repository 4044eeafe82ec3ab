/**
 The file system checker `m3fsck`: it walks over the directory tree, marks inodes and blocks in
 bitmaps, and compares them with what is on disk.

 The theorem is that acceptance means something: an image is accepted if and only if every reachable
 inode is intact, no block is used twice, and the bitmaps and counters on disk are right.
 */
module FsckSpec {
  import opened Extents

  datatype SuperBlock = SuperBlock(blocksize: nat, totalInodes: nat, totalBlocks: nat, freeInodes: nat,
                                   freeBlocks: nat, firstFreeInode: nat, firstFreeBlock: nat, checksum: nat)

  /** `next` is the distance to the next entry of the block. */
  datatype DirEntry = DirEntry(nodeno: nat, name: string, next: nat)

  /** What is on disk: blocks as tables of extents, blocks as directories (by offset), inodes, and the two bitmaps. */
  datatype Image = Image(sb: SuperBlock, inodes: map<nat, INode>, tables: Tables,
                         dirs: map<nat, map<nat, DirEntry>>, inodeBitmap: seq<bool>, blockBitmap: seq<bool>)

  // ---------------------------------------------------------------- layout

  function DivUp(a: nat, b: nat): nat
    requires b > 0
  {
    (a + b - 1) / b
  }

  const INODE_SIZE: nat := 64
  const EXTENT_SIZE: nat := 8

  function FirstDataBlock(sb: SuperBlock): nat
    requires sb.blocksize > 0
  {
    var inodebm := DivUp(DivUp(sb.totalInodes, 8), sb.blocksize);
    var blockbm := DivUp(DivUp(sb.totalBlocks, 8), sb.blocksize);
    1 + inodebm + blockbm + DivUp(sb.totalInodes * INODE_SIZE, sb.blocksize)
  }

  function ExtentsPerBlock(sb: SuperBlock): nat {
    sb.blocksize / EXTENT_SIZE
  }

  function FieldSum(sb: SuperBlock): nat {
    1 + sb.blocksize * 2 + sb.totalInodes * 3 + sb.totalBlocks * 5 + sb.freeInodes * 7 + sb.freeBlocks * 11
    + sb.firstFreeInode * 13 + sb.firstFreeBlock * 17
  }

  /** The sum in 32-bit arithmetic. */
  function Checksum(sb: SuperBlock): nat {
    FieldSum(sb) % 0x1_0000_0000
  }

  /** `x & (x - 1) == 0` for a positive number. */
  predicate PowerOf2(x: nat) {
    x == 1 || (x > 1 && x % 2 == 0 && PowerOf2(x / 2))
  }

  /** The bits that a `Bitmap` for `bits` bits really has: whole 32-bit words. */
  function Capacity(bits: nat): nat {
    (bits + 31) / 32 * 32
  }

  // ---------------------------------------------------------------- what an inode refers to

  function Node(img: Image, ino: nat): INode {
    if ino in img.inodes then img.inodes[ino] else INode(0, false, 0, 0, [], 0, 0)
  }

  function BlockCount(img: Image, ino: nat): nat
    requires img.sb.blocksize > 0
  {
    DivUp(Node(img, ino).size, img.sb.blocksize)
  }

  function DataBlock(img: Image, ino: nat, i: nat): nat {
    GetBlockNo(img.tables, Node(img, ino), i)
  }

  function EntryAt(img: Image, block: nat, off: nat): DirEntry {
    if block in img.dirs && off in img.dirs[block] then img.dirs[block][off] else DirEntry(0, "", 0)
  }

  predicate IsDot(e: DirEntry) {
    e.name == "." || e.name == ".."
  }

  /** The children in a directory block from an offset on. */
  function ChildrenFrom(img: Image, block: nat, off: nat): seq<nat>
    decreases if off < img.sb.blocksize then img.sb.blocksize - off else 0
  {
    var e := EntryAt(img, block, off);
    if e.next > 0 && off < img.sb.blocksize
    then (if IsDot(e) then [] else [e.nodeno]) + ChildrenFrom(img, block, off + e.next)
    else []
  }

  /** The fields of an entry in front of its name. */
  const DIRENTRY_SIZE: nat := 12

  /** The walk over a block reads `next` of an entry before it compares its position with the end: all these positions. */
  function Visited(img: Image, block: nat, off: nat): seq<nat>
    decreases if off < img.sb.blocksize then img.sb.blocksize - off else 0
  {
    var e := EntryAt(img, block, off);
    [off] + if e.next > 0 && off < img.sb.blocksize then Visited(img, block, off + e.next) else []
  }

  predicate Inside(img: Image, off: nat) {
    off + DIRENTRY_SIZE <= img.sb.blocksize
  }

  /** Where the walk ends. */
  function LastVisited(img: Image, block: nat, off: nat): nat
    decreases if off < img.sb.blocksize then img.sb.blocksize - off else 0
  {
    var e := EntryAt(img, block, off);
    if e.next > 0 && off < img.sb.blocksize then LastVisited(img, block, off + e.next) else off
  }

  lemma {:induction false} LastIsVisited(img: Image, block: nat, off: nat)
    ensures var last := LastVisited(img, block, off);
            last in Visited(img, block, off) && (last >= img.sb.blocksize || EntryAt(img, block, last).next == 0)
    decreases if off < img.sb.blocksize then img.sb.blocksize - off else 0
  {
    var next := off + EntryAt(img, block, off).next;
    if next > off && off < img.sb.blocksize {
      LastIsVisited(img, block, next);
    }
  }

  lemma {:induction false} LastIsLast(img: Image, block: nat, off: nat, o: nat)
    requires o in Visited(img, block, off)
    ensures var last := LastVisited(img, block, off);
            o <= last && (o == last || (o < img.sb.blocksize && EntryAt(img, block, o).next > 0))
    decreases if off < img.sb.blocksize then img.sb.blocksize - off else 0
  {
    var next := off + EntryAt(img, block, off).next;
    if next > off && off < img.sb.blocksize {
      assert o == off || o in Visited(img, block, next);
      assert Visited(img, block, next)[0] == next;
      LastIsLast(img, block, next, if o == off then next else o);
    }
  }

  /** All reads are inside of the block exactly if the walk ends at an entry inside of it that has no next one. */
  lemma WalkInsideExactly(img: Image, block: nat, off: nat)
    ensures (forall o :: o in Visited(img, block, off) ==> Inside(img, o))
       <==> exists o :: o in Visited(img, block, off) && Inside(img, o) && EntryAt(img, block, o).next == 0
  {
    var last := LastVisited(img, block, off);
    forall o | o in Visited(img, block, off) ensures o <= last && (EntryAt(img, block, o).next == 0 ==> o == last) {
      LastIsLast(img, block, off, o);
    }
    LastIsVisited(img, block, off);
  }

  /** So an entry that reaches the end of the block makes the walk read behind it. */
  lemma {:induction false} LastEntryReadsBehind(img: Image, block: nat, off: nat, o: nat)
    requires o in Visited(img, block, off) && o < img.sb.blocksize <= o + EntryAt(img, block, o).next
    ensures exists x :: x in Visited(img, block, off) && !Inside(img, x)
    decreases if off < img.sb.blocksize then img.sb.blocksize - off else 0
  {
    var next := off + EntryAt(img, block, off).next;
    assert o == off || o in Visited(img, block, next);
    if o == off {
      assert Visited(img, block, next)[0] == next;
      assert next in Visited(img, block, off) && !Inside(img, next);
    } else {
      LastEntryReadsBehind(img, block, next, o);
    }
  }

  /** What it finds there makes no difference. */
  lemma {:induction false} ChildrenIgnoreBehind(img: Image, img': Image, block: nat, off: nat)
    requires img'.sb.blocksize == img.sb.blocksize
    requires forall o :: 0 <= o < img.sb.blocksize ==> EntryAt(img', block, o) == EntryAt(img, block, o)
    ensures ChildrenFrom(img', block, off) == ChildrenFrom(img, block, off)
    decreases if off < img.sb.blocksize then img.sb.blocksize - off else 0
  {
    var e := EntryAt(img, block, off);
    if e.next > 0 && off < img.sb.blocksize {
      ChildrenIgnoreBehind(img, img', block, off + e.next);
    }
  }

  /** `c` is listed in one of the first `blocks` blocks of the directory. */
  ghost predicate ChildWithin(img: Image, ino: nat, blocks: nat, c: nat) {
    exists i :: 0 <= i < blocks && c in ChildrenFrom(img, DataBlock(img, ino, i), 0)
  }

  ghost predicate Child(img: Image, ino: nat, c: nat)
    requires img.sb.blocksize > 0
  {
    Node(img, ino).isDir && ChildWithin(img, ino, BlockCount(img, ino), c)
  }

  /** A way from one inode to another through directories. */
  ghost predicate Path(img: Image, p: seq<nat>)
    requires img.sb.blocksize > 0
  {
    |p| > 0 && forall i :: 0 < i < |p| ==> Child(img, p[i - 1], p[i])
  }

  ghost predicate Reachable(img: Image, from: nat, to: nat)
    requires img.sb.blocksize > 0
  {
    exists p :: Path(img, p) && p[0] == from && p[|p| - 1] == to
  }

  lemma ReachSelf(img: Image, x: nat)
    requires img.sb.blocksize > 0
    ensures Reachable(img, x, x)
  {
    assert Path(img, [x]);
  }

  lemma ReachChild(img: Image, x: nat, y: nat, c: nat)
    requires img.sb.blocksize > 0 && Reachable(img, x, y) && Child(img, y, c)
    ensures Reachable(img, x, c)
  {
    var p :| Path(img, p) && p[0] == x && p[|p| - 1] == y;
    var q := p + [c];
    forall i | 0 < i < |q| ensures Child(img, q[i - 1], q[i]) {
      if i < |p| {
        assert Child(img, p[i - 1], p[i]);
      }
    }
    assert Path(img, q);
  }

  /** A set that is closed under children contains everything that is reachable from its members. */
  lemma {:induction false} ClosedContainsPath(img: Image, s: set<nat>, p: seq<nat>)
    requires img.sb.blocksize > 0 && Path(img, p) && p[0] in s
    requires forall x, c :: x in s && Child(img, x, c) ==> c in s
    ensures p[|p| - 1] in s
    decreases |p|
  {
    if |p| > 1 {
      var q := p[..|p| - 1];
      assert Path(img, q);
      ClosedContainsPath(img, s, q);
      assert Child(img, p[|p| - 2], p[|p| - 1]);
    }
  }

  // ---------------------------------------------------------------- which blocks an inode uses

  /** The used entries of a double-indirect block. */
  function Used(es: seq<Extent>): seq<nat> {
    if es == [] then []
    else (if es[0].start != 0 && es[0].length != 0 then [es[0].start] else []) + Used(es[1..])
  }

  /** The blocks that hold extents. */
  function PointerBlocks(img: Image, ino: nat): seq<nat> {
    var n, epb := Node(img, ino), ExtentsPerBlock(img.sb);
    (if n.extents > INODE_DIR_COUNT then [n.indirect] else [])
    + (if n.extents > INODE_DIR_COUNT + epb then [n.dindirect] + Used(Table(img.tables, n.dindirect)) else [])
  }

  /** All blocks of an inode, as often as it refers to them: first the data, then the pointers. */
  function BlocksOf(img: Image, ino: nat): seq<nat>
    requires img.sb.blocksize > 0
  {
    seq(BlockCount(img, ino), i requires 0 <= i => DataBlock(img, ino, i)) + PointerBlocks(img, ino)
  }

  // ---------------------------------------------------------------- intact inodes

  /** The first `used` entries of a double-indirect block point to one block each, all others are empty. */
  ghost predicate TableOk(es: seq<Extent>, used: nat) {
    forall i :: 0 <= i < |es| ==> EntryOk(es[i], i < used)
  }

  predicate EntryOk(e: Extent, used: bool) {
    if used then e.start != 0 && e.length == 1 else e == Extent(0, 0)
  }

  ghost predicate IndirectOk(n: INode) {
    n.indirect != 0 <==> n.extents > INODE_DIR_COUNT
  }

  ghost predicate DoubleIndirectOk(img: Image, n: INode) {
    var epb := ExtentsPerBlock(img.sb);
    && (n.dindirect != 0 <==> n.extents > INODE_DIR_COUNT + epb)
    && (n.dindirect != 0 ==>
          && epb > 0 && n.dindirect in img.tables
          && TableOk(Table(img.tables, n.dindirect), DivUp(n.extents - (INODE_DIR_COUNT + epb), epb)))
  }

  /** The pointers fit to the number of extents. */
  ghost predicate PointersOk(img: Image, ino: nat) {
    IndirectOk(Node(img, ino)) && DoubleIndirectOk(img, Node(img, ino))
  }

  /** An inode by itself: it can be read, names itself, and its blocks are there. */
  ghost predicate LocalOk(img: Image, ino: nat)
    requires img.sb.blocksize > 0
  {
    && ino in img.inodes && Node(img, ino).inode == ino && PointersOk(img, ino)
    && forall i :: 0 <= i < BlockCount(img, ino) ==> DataBlockOk(img, ino, i)
  }

  ghost predicate DataBlockOk(img: Image, ino: nat, i: nat) {
    DataBlock(img, ino, i) != 0 && (Node(img, ino).isDir ==> DataBlock(img, ino, i) in img.dirs)
  }

  /** The inode and its blocks are in the ranges that the superblock gives. */
  ghost predicate InRange(img: Image, ino: nat)
    requires img.sb.blocksize > 0
  {
    && ino < Capacity(img.sb.totalInodes)
    && forall k :: 0 <= k < |BlocksOf(img, ino)| ==>
         FirstDataBlock(img.sb) <= BlocksOf(img, ino)[k] < Capacity(img.sb.totalBlocks)
  }

  ghost predicate NodeOk(img: Image, ino: nat)
    requires img.sb.blocksize > 0
  {
    LocalOk(img, ino) && InRange(img, ino)
  }

  /** No two block numbers of any inodes in the tree are for the same block. */
  ghost predicate SameBlockSameUse(img: Image, x: nat, j: nat, y: nat, k: nat)
    requires img.sb.blocksize > 0 && j < |BlocksOf(img, x)| && k < |BlocksOf(img, y)|
  {
    BlocksOf(img, x)[j] == BlocksOf(img, y)[k] ==> x == y && j == k
  }

  ghost predicate TreeOk(img: Image)
    requires img.sb.blocksize > 0
  {
    && (forall x {:trigger NodeOk(img, x)} :: Reachable(img, 0, x) ==> NodeOk(img, x))
    && (forall x, j, y, k {:trigger SameBlockSameUse(img, x, j, y, k)} ::
          Reachable(img, 0, x) && Reachable(img, 0, y) && 0 <= j < |BlocksOf(img, x)| && 0 <= k < |BlocksOf(img, y)|
          ==> SameBlockSameUse(img, x, j, y, k))
  }

  // ---------------------------------------------------------------- claims

  /** Who uses a block: the file system itself, or an inode for its `k`th block. */
  datatype Slot = Meta | Slot(ino: nat, k: nat)

  type Claims = map<nat, Slot>

  /** The block belongs to a marked inode, or to the file system itself. */
  ghost predicate SlotOk(img: Image, m: set<nat>, b: nat, slot: Slot)
    requires img.sb.blocksize > 0
  {
    match slot
    case Meta => b < FirstDataBlock(img.sb)
    case Slot(ino, k) => ino in m && k < |BlocksOf(img, ino)| && BlocksOf(img, ino)[k] == b
  }

  ghost predicate ClaimOk(img: Image, m: set<nat>, cl: Claims, b: nat)
    requires img.sb.blocksize > 0 && b in cl
  {
    SlotOk(img, m, b, cl[b])
  }

  /** The first `k` blocks of the inode are claimed by it. */
  ghost predicate Claimed(img: Image, cl: Claims, ino: nat, k: nat)
    requires img.sb.blocksize > 0
  {
    k <= |BlocksOf(img, ino)| &&
    forall j :: 0 <= j < k ==> BlocksOf(img, ino)[j] in cl && cl[BlocksOf(img, ino)[j]] == Slot(ino, j)
  }

  /** Claims are never given up. */
  ghost predicate Extends(cl: Claims, cl': Claims) {
    forall b :: b in cl ==> b in cl' && cl'[b] == cl[b]
  }

  /** Different slots are different blocks. */
  lemma ClaimsAreUnique(img: Image, cl: Claims, x: nat, j: nat, y: nat, k: nat)
    requires img.sb.blocksize > 0
    requires Claimed(img, cl, x, |BlocksOf(img, x)|) && Claimed(img, cl, y, |BlocksOf(img, y)|)
    requires j < |BlocksOf(img, x)| && k < |BlocksOf(img, y)|
    ensures SameBlockSameUse(img, x, j, y, k)
  {
  }
}
