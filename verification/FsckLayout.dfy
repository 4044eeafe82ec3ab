/**
 The numbers that `m3fsck` computes from the superblock and from inodes, each by what it is for: as many blocks as
 needed and no more.
 */
module FsckLayout {
  import opened Extents
  import opened FsckSpec

  /** `c` units are enough for `n`, and no smaller number is. */
  ghost predicate Enough(c: nat, unit: nat, n: nat) {
    n <= c * unit && (c > 0 ==> (c - 1) * unit < n)
  }

  lemma DivUpExactly(a: nat, b: nat)
    requires b > 0
    ensures Enough(DivUp(a, b), b, a)
  {
    var q, r := (a + b - 1) / b, (a + b - 1) % b;
    assert a + b - 1 == q * b + r;
    assert (q - 1) * b == q * b - b;
  }

  lemma Monotone(a: int, b: int, c: nat)
    requires a <= b
    ensures a * c <= b * c
  {
    assert (b - a) * c >= 0;
  }

  lemma Associative(a: int, b: int, c: int)
    ensures (a * b) * c == a * (c * b)
  {
  }

  lemma EnoughTwice(a: nat, b: nat, x: nat, y: nat, c: nat)
    requires Enough(y, a, x) && Enough(c, b, y)
    ensures Enough(c, a * b, x)
  {
    Monotone(y, c * b, a);
    Associative(c, b, a);
    if c > 0 {
      Monotone((c - 1) * b, y - 1, a);
      Associative(c - 1, b, a);
    }
  }

  /** A bitmap of `n` bits in blocks: eight bits to the byte. */
  lemma BitmapBlocks(n: nat, blocksize: nat)
    requires blocksize > 0
    ensures Enough(DivUp(DivUp(n, 8), blocksize), 8 * blocksize, n)
  {
    DivUpExactly(n, 8);
    DivUpExactly(DivUp(n, 8), blocksize);
    EnoughTwice(8, blocksize, n, DivUp(n, 8), DivUp(DivUp(n, 8), blocksize));
  }

  /**
   The data begins behind the superblock, the two bitmaps and the inodes, each of which has as many blocks as it needs
   and no more.
   */
  lemma LayoutExactly(sb: SuperBlock) returns (inodebm: nat, blockbm: nat, inodes: nat)
    requires sb.blocksize > 0
    ensures FirstDataBlock(sb) == 1 + inodebm + blockbm + inodes
    ensures Enough(inodebm, 8 * sb.blocksize, sb.totalInodes)
    ensures Enough(blockbm, 8 * sb.blocksize, sb.totalBlocks)
    ensures Enough(inodes, sb.blocksize, 64 * sb.totalInodes)
  {
    BitmapBlocks(sb.totalInodes, sb.blocksize);
    BitmapBlocks(sb.totalBlocks, sb.blocksize);
    DivUpExactly(sb.totalInodes * INODE_SIZE, sb.blocksize);
    inodebm := DivUp(DivUp(sb.totalInodes, 8), sb.blocksize);
    blockbm := DivUp(DivUp(sb.totalBlocks, 8), sb.blocksize);
    inodes := DivUp(sb.totalInodes * INODE_SIZE, sb.blocksize);
  }

  /** The words of a bitmap hold all its bits, and the last one at least one of them. */
  lemma CapacityExactly(bits: nat)
    ensures bits <= Capacity(bits) < bits + 32 && Capacity(bits) % 32 == 0
  {
  }

  /** A block holds as many extents as fit. */
  lemma ExtentsPerBlockExactly(sb: SuperBlock)
    ensures 8 * ExtentsPerBlock(sb) <= sb.blocksize < 8 * (ExtentsPerBlock(sb) + 1)
  {
  }

  // ---------------------------------------------------------------- the blocks of an inode

  /** A file has as many blocks as its bytes need. */
  lemma BlockCountExactly(img: Image, ino: nat)
    requires img.sb.blocksize > 0
    ensures Enough(BlockCount(img, ino), img.sb.blocksize, Node(img, ino).size)
  {
    DivUpExactly(Node(img, ino).size, img.sb.blocksize);
  }

  lemma Within(c: nat, unit: nat, n: nat, i: nat)
    requires Enough(c, unit, n)
    ensures i < c <==> i * unit < n
  {
    if i < c {
      Monotone(i, c - 1, unit);
    } else {
      Monotone(c, i, unit);
    }
  }

  lemma UnitOf(o: nat, unit: nat)
    requires unit > 0
    ensures 0 <= o / unit && o / unit * unit <= o < (o / unit + 1) * unit
  {
    var q := o / unit;
    assert o == q * unit + o % unit;
    if q < 0 {
      Monotone(q, -1, unit);
    }
  }

  /** Every byte of a file lies in one of its blocks, and every block holds one of its bytes. */
  lemma BytesAndBlocks(img: Image, ino: nat, o: nat, i: nat)
    requires img.sb.blocksize > 0
    ensures 0 <= o / img.sb.blocksize && (o < Node(img, ino).size ==> o / img.sb.blocksize < BlockCount(img, ino))
    ensures i < BlockCount(img, ino) <==> i * img.sb.blocksize < Node(img, ino).size
  {
    BlockCountExactly(img, ino);
    UnitOf(o, img.sb.blocksize);
    Within(BlockCount(img, ino), img.sb.blocksize, Node(img, ino).size, i);
    Within(BlockCount(img, ino), img.sb.blocksize, Node(img, ino).size, o / img.sb.blocksize);
  }

  lemma {:induction false} UsedAre(es: seq<Extent>, b: nat)
    ensures b in Used(es) <==> exists i :: 0 <= i < |es| && es[i].start == b && b != 0 && es[i].length != 0
    decreases |es|
  {
    if es != [] {
      UsedAre(es[1..], b);
      assert b in Used(es) <==> (es[0].start == b && b != 0 && es[0].length != 0) || b in Used(es[1..]);
      forall i | 0 <= i < |es[1..]| ensures es[1..][i] == es[i + 1] {
      }
      if i :| 0 <= i < |es| && es[i].start == b && b != 0 && es[i].length != 0 {
        assert i == 0 || es[1..][i - 1] == es[i];
      }
    }
  }

  /** An entry of the double-indirect block is in use exactly if the table that it names has one of the extents. */
  lemma EntriesExactly(img: Image, n: INode, i: nat)
    requires DoubleIndirectOk(img, n) && n.dindirect != 0 && i < |Table(img.tables, n.dindirect)|
    ensures EntryOk(Table(img.tables, n.dindirect)[i],
                    INODE_DIR_COUNT + ExtentsPerBlock(img.sb) + i * ExtentsPerBlock(img.sb) < n.extents)
  {
    var epb := ExtentsPerBlock(img.sb);
    var rest := n.extents - (INODE_DIR_COUNT + epb);
    var used := DivUp(rest, epb);
    DivUpExactly(rest, epb);
    Within(used, epb, rest, i);
  }

  /** The blocks that hold the extents of a file are those that its pointers name. */
  lemma PointerBlocksAre(img: Image, ino: nat, b: nat)
    requires PointersOk(img, ino)
    ensures var n := Node(img, ino); var es := Table(img.tables, n.dindirect);
            b in PointerBlocks(img, ino) <==>
              b != 0 && (b == n.indirect || b == n.dindirect || (n.dindirect != 0 && exists i :: 0 <= i < |es| && es[i].start == b))
  {
    var n := Node(img, ino);
    var es := Table(img.tables, n.dindirect);
    UsedAre(es, b);
    if n.dindirect != 0 {
      forall i | 0 <= i < |es| && es[i].start != 0 ensures es[i].length != 0 {
        EntriesExactly(img, n, i);
      }
    }
  }

  // ---------------------------------------------------------------- directories

  /** The children in a block are those that the entries on the walk name, without the two for the directories themselves. */
  lemma {:induction false} ChildrenAreEntries(img: Image, block: nat, off: nat, c: nat)
    ensures c in ChildrenFrom(img, block, off) <==> exists o :: o in Visited(img, block, off) && ListedAt(img, block, o, c)
    decreases if off < img.sb.blocksize then img.sb.blocksize - off else 0
  {
    var e := EntryAt(img, block, off);
    assert off in Visited(img, block, off);
    if e.next > 0 && off < img.sb.blocksize {
      ChildrenAreEntries(img, block, off + e.next, c);
      assert c in ChildrenFrom(img, block, off) <==> ListedAt(img, block, off, c) || c in ChildrenFrom(img, block, off + e.next);
      assert forall o :: o in Visited(img, block, off) <==> o == off || o in Visited(img, block, off + e.next);
    }
  }

  /** The entry on disk at offset `o` names `c`. */
  predicate ListedAt(img: Image, block: nat, o: nat, c: nat) {
    && block in img.dirs && o in img.dirs[block] && o < img.sb.blocksize
    && var e := img.dirs[block][o];
       e.next > 0 && e.nodeno == c && e.name != "." && e.name != ".."
  }

  // ---------------------------------------------------------------- the superblock

  function Pow2(k: nat): (r: nat)
    ensures r >= 1 && (k > 0 ==> r % 2 == 0)
  {
    if k == 0 then 1 else 2 * Pow2(k - 1)
  }

  lemma {:induction false} Pow2IsPowerOf2(k: nat)
    ensures PowerOf2(Pow2(k))
  {
    if k > 0 {
      Pow2IsPowerOf2(k - 1);
      assert Pow2(k) / 2 == Pow2(k - 1);
    }
  }

  lemma {:induction false} PowerOf2HasLog(x: nat) returns (k: nat)
    requires PowerOf2(x)
    ensures x == Pow2(k)
    decreases x
  {
    k := 0;
    if x > 1 {
      k := PowerOf2HasLog(x / 2);
      k := k + 1;
    }
  }

  /** The block size has to be a power of two. */
  lemma PowerOf2Exactly(x: nat)
    ensures PowerOf2(x) <==> exists k: nat :: x == Pow2(k)
  {
    if PowerOf2(x) {
      var k := PowerOf2HasLog(x);
      assert x == Pow2(k);
    }
    if k: nat :| x == Pow2(k) {
      Pow2IsPowerOf2(k);
    }
  }

  /** The weights of the fields in the checksum. */
  lemma ChecksumWeights()
    ensures Checksum(SuperBlock(0, 0, 0, 0, 0, 0, 0, 0)) == 1
    ensures Checksum(SuperBlock(1, 0, 0, 0, 0, 0, 0, 0)) == 1 + 2
    ensures Checksum(SuperBlock(0, 1, 0, 0, 0, 0, 0, 0)) == 1 + 3
    ensures Checksum(SuperBlock(0, 0, 1, 0, 0, 0, 0, 0)) == 1 + 5
    ensures Checksum(SuperBlock(0, 0, 0, 1, 0, 0, 0, 0)) == 1 + 7
    ensures Checksum(SuperBlock(0, 0, 0, 0, 1, 0, 0, 0)) == 1 + 11
    ensures Checksum(SuperBlock(0, 0, 0, 0, 0, 1, 0, 0)) == 1 + 13
    ensures Checksum(SuperBlock(0, 0, 0, 0, 0, 0, 1, 0)) == 1 + 17
  {
  }

  // ---------------------------------------------------------------- what the checksum detects

  const WORD: nat := 0x1_0000_0000

  /** All fields are 32-bit numbers. */
  predicate Words(sb: SuperBlock) {
    && sb.blocksize < WORD && sb.totalInodes < WORD && sb.totalBlocks < WORD && sb.freeInodes < WORD
    && sb.freeBlocks < WORD && sb.firstFreeInode < WORD && sb.firstFreeBlock < WORD
  }

  /** The value of one field is another one. */
  predicate Replaced(sb: SuperBlock, sb': SuperBlock) {
    || (sb' == sb.(totalInodes := sb'.totalInodes) && sb'.totalInodes != sb.totalInodes)
    || (sb' == sb.(totalBlocks := sb'.totalBlocks) && sb'.totalBlocks != sb.totalBlocks)
    || (sb' == sb.(freeInodes := sb'.freeInodes) && sb'.freeInodes != sb.freeInodes)
    || (sb' == sb.(freeBlocks := sb'.freeBlocks) && sb'.freeBlocks != sb.freeBlocks)
    || (sb' == sb.(firstFreeInode := sb'.firstFreeInode) && sb'.firstFreeInode != sb.firstFreeInode)
    || (sb' == sb.(firstFreeBlock := sb'.firstFreeBlock) && sb'.firstFreeBlock != sb.firstFreeBlock)
  }

  /** A multiple of an odd weight is a multiple of the word size only if the number itself is. */
  lemma OddWeights(d: int, k: int)
    requires d < WORD && -d < WORD && d != 0
    ensures 3 * d != WORD * k && 5 * d != WORD * k && 7 * d != WORD * k
    ensures 11 * d != WORD * k && 13 * d != WORD * k && 17 * d != WORD * k
  {
  }

  lemma SameRemainder(a: int, b: int) returns (k: int)
    requires a % WORD == b % WORD
    ensures a - b == WORD * k
  {
    k := a / WORD - b / WORD;
  }

  /** Replacing one field of the superblock by another 32-bit value is noticed, if it is not the block size. */
  lemma ChecksumDetects(sb: SuperBlock, sb': SuperBlock)
    requires Words(sb) && Words(sb') && Replaced(sb, sb')
    ensures Checksum(sb') != Checksum(sb)
  {
    if Checksum(sb') == Checksum(sb) {
      var k := SameRemainder(FieldSum(sb'), FieldSum(sb));
      var d: int := (sb'.totalInodes - sb.totalInodes) + (sb'.totalBlocks - sb.totalBlocks) + (sb'.freeInodes - sb.freeInodes)
               + (sb'.freeBlocks - sb.freeBlocks) + (sb'.firstFreeInode - sb.firstFreeInode)
               + (sb'.firstFreeBlock - sb.firstFreeBlock);
      OddWeights(d, k);
    }
  }

  /** Another block size is noticed exactly if it does not differ in the highest bit alone. */
  lemma BlocksizeDetects(sb: SuperBlock, blocksize: nat)
    requires Words(sb) && blocksize < WORD && blocksize != sb.blocksize
    ensures Checksum(sb.(blocksize := blocksize)) == Checksum(sb)
       <==> blocksize == sb.blocksize + WORD / 2 || sb.blocksize == blocksize + WORD / 2
  {
    var sum, sum' := FieldSum(sb), FieldSum(sb.(blocksize := blocksize));
    assert sum' - sum == 2 * (blocksize - sb.blocksize);
    if sum % WORD == sum' % WORD {
      var k := SameRemainder(sum', sum);
      assert blocksize - sb.blocksize == WORD / 2 * k;
    }
  }
}
