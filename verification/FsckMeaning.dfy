/** What it means for the files of an image that `m3fsck` accepts it. */
module FsckMeaning {
  import opened Extents
  import opened FsckSpec
  import opened FsckLayout
  import opened FsckMain

  /** The block of byte `o` of a file. */
  function BlockOfByte(img: Image, ino: nat, o: nat): nat
    requires img.sb.blocksize > 0
  {
    UnitOf(o, img.sb.blocksize);
    DataBlock(img, ino, o / img.sb.blocksize)
  }

  /** The file has a byte `o`. */
  predicate HasByte(img: Image, ino: nat, o: nat) {
    ino in img.inodes && o < img.inodes[ino].size
  }

  /** A block of a reachable inode is behind the metadata, in use and marked; the bitmap has no bit for it only behind the total. */
  ghost predicate Marked(img: Image, b: nat)
    requires img.sb.blocksize > 0
  {
    && FirstDataBlock(img.sb) <= b < Capacity(img.sb.totalBlocks) && b in Blocks(img)
    && (b < img.sb.totalBlocks ==> b < |img.blockBitmap| && img.blockBitmap[b])
  }

  lemma BlocksAreMarked(img: Image, ino: nat, k: nat)
    requires Intact(img) && Reachable(img, 0, ino) && k < |BlocksOf(img, ino)|
    ensures Marked(img, BlocksOf(img, ino)[k])
  {
    assert NodeOk(img, ino);
    assert BlocksOf(img, ino)[k] in BlocksOf(img, ino);
  }

  /** Every byte of a reachable file lies in a block that exists and is marked. */
  lemma BytesAreMarked(img: Image, ino: nat, o: nat)
    requires Intact(img) && Reachable(img, 0, ino) && HasByte(img, ino, o)
    ensures BlockOfByte(img, ino, o) != 0 && Marked(img, BlockOfByte(img, ino, o))
  {
    BytesAndBlocks(img, ino, o, 0);
    var i := o / img.sb.blocksize;
    assert NodeOk(img, ino) && DataBlockOk(img, ino, i);
    assert BlocksOf(img, ino)[i] == DataBlock(img, ino, i);
    BlocksAreMarked(img, ino, i);
  }

  lemma DataBlocksAreApart(img: Image, x: nat, i: nat, y: nat, j: nat)
    requires Intact(img) && Reachable(img, 0, x) && Reachable(img, 0, y) && i < BlockCount(img, x) && j < BlockCount(img, y)
    requires DataBlock(img, x, i) == DataBlock(img, y, j)
    ensures x == y && i == j
  {
    assert BlocksOf(img, x)[i] == DataBlock(img, x, i) && BlocksOf(img, y)[j] == DataBlock(img, y, j);
    assert SameBlockSameUse(img, x, i, y, j);
  }

  /** No block holds bytes of two files, or of two places of one file. */
  lemma BytesAreApart(img: Image, x: nat, o: nat, y: nat, o': nat)
    requires Intact(img) && Reachable(img, 0, x) && Reachable(img, 0, y) && HasByte(img, x, o) && HasByte(img, y, o')
    requires BlockOfByte(img, x, o) == BlockOfByte(img, y, o')
    ensures x == y && o / img.sb.blocksize == o' / img.sb.blocksize
  {
    BytesAndBlocks(img, x, o, 0);
    BytesAndBlocks(img, y, o', 0);
    DataBlocksAreApart(img, x, o / img.sb.blocksize, y, o' / img.sb.blocksize);
  }

  lemma PointerIsNoData(img: Image, x: nat, k: nat, y: nat, i: nat)
    requires Intact(img) && Reachable(img, 0, x) && Reachable(img, 0, y) && i < BlockCount(img, y) && k < |PointerBlocks(img, x)|
    ensures DataBlock(img, y, i) != PointerBlocks(img, x)[k]
  {
    var j := BlockCount(img, x) + k;
    assert BlocksOf(img, x)[j] == PointerBlocks(img, x)[k] && BlocksOf(img, y)[i] == DataBlock(img, y, i);
    assert SameBlockSameUse(img, x, j, y, i);
  }

  /** The blocks with the extents of a reachable file are marked, too, and hold no bytes of any file. */
  lemma PointersAreMarked(img: Image, x: nat, k: nat, y: nat, o: nat)
    requires Intact(img) && Reachable(img, 0, x) && k < |PointerBlocks(img, x)|
    ensures Marked(img, PointerBlocks(img, x)[k])
    ensures Reachable(img, 0, y) && HasByte(img, y, o) ==> BlockOfByte(img, y, o) != PointerBlocks(img, x)[k]
  {
    assert BlocksOf(img, x)[BlockCount(img, x) + k] == PointerBlocks(img, x)[k];
    BlocksAreMarked(img, x, BlockCount(img, x) + k);
    if Reachable(img, 0, y) && HasByte(img, y, o) {
      BytesAndBlocks(img, y, o, 0);
      PointerIsNoData(img, x, k, y, o / img.sb.blocksize);
    }
  }

  /** A block that the bitmap calls free holds no byte and no extent of any file. */
  lemma FreeIsUnused(img: Image, b: nat, x: nat, o: nat)
    requires Intact(img) && b < img.sb.totalBlocks && b < |img.blockBitmap| && !img.blockBitmap[b] && Reachable(img, 0, x)
    ensures b >= FirstDataBlock(img.sb) && b !in BlocksOf(img, x)
    ensures HasByte(img, x, o) ==> BlockOfByte(img, x, o) != b
  {
    assert b !in Blocks(img);
    if HasByte(img, x, o) {
      BytesAreMarked(img, x, o);
    }
  }

  /** The children that the entries of a reachable directory name are reachable, marked and intact. */
  lemma ChildrenAreIntact(img: Image, x: nat, i: nat, o: nat, c: nat)
    requires Intact(img) && Reachable(img, 0, x) && x in img.inodes && img.inodes[x].isDir && i < BlockCount(img, x)
    requires o in Visited(img, DataBlock(img, x, i), 0) && ListedAt(img, DataBlock(img, x, i), o, c)
    ensures Reachable(img, 0, c) && c in img.inodes && img.inodes[c].inode == c
    ensures c < img.sb.totalInodes ==> c < |img.inodeBitmap| && img.inodeBitmap[c]
  {
    ChildrenAreEntries(img, DataBlock(img, x, i), 0, c);
    assert ChildWithin(img, x, BlockCount(img, x), c);
    ReachChild(img, 0, x, c);
    assert NodeOk(img, c) && c in Inodes(img);
  }
}
