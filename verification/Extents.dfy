/**
 Files of m3fs on disk: a file is a list of extents, kept in the inode, in an indirect block and in the
 blocks that a double-indirect block points to.  `get_block_no` finds the block for a block number of
 the file; the lemmas show that this is indexing into the concatenation of all extents.
 */
module Extents {
  import opened Options

  const INODE_DIR_COUNT: nat := 3
  /** Block numbers are 32-bit values. */
  const BLOCKNO: nat := 0x1_0000_0000

  datatype Extent = Extent(start: nat, length: nat)

  datatype INode = INode(inode: nat, isDir: bool, size: nat, extents: nat,
                         direct: seq<Extent>, indirect: nat, dindirect: nat)

  /** The blocks of the disk, read as tables of extents. */
  type Tables = map<nat, seq<Extent>>

  function Table(t: Tables, block: nat): seq<Extent> {
    if block in t then t[block] else []
  }

  // ---------------------------------------------------------------- lookup

  /** A scan over extents: the block, if one of them contains the number, and what is left of the number. */
  function Scan(es: seq<Extent>, no: nat): (Option<nat>, nat) {
    if es == [] then (None, no)
    else if es[0].length > no then (Some((es[0].start + no) % BLOCKNO), no)
    else Scan(es[1..], no - es[0].length)
  }

  function BlockOr0(b: Option<nat>): nat {
    if b.Some? then b.value else 0
  }

  /** The scan over the tables that a double-indirect block points to; 0 means not found. */
  function ScanTables(t: Tables, es: seq<Extent>, no: nat): (nat, nat) {
    if es == [] then (0, no)
    else
      var (b, left) := Scan(Table(t, es[0].start), no);
      if BlockOr0(b) != 0 then (BlockOr0(b), left) else ScanTables(t, es[1..], left)
  }

  /** The lookup in the tables of the two pointers. */
  function FromPointers(t: Tables, indirect: seq<Extent>, dindirect: seq<Extent>, no: nat): nat {
    var (b, left) := Scan(indirect, no);
    if BlockOr0(b) != 0 then BlockOr0(b) else ScanTables(t, dindirect, left).0
  }

  function GetBlockNo(t: Tables, ino: INode, no: nat): nat {
    var (b, left) := Scan(ino.direct, no);
    if b.Some? then b.value else FromPointers(t, Table(t, ino.indirect), Table(t, ino.dindirect), left)
  }

  // ---------------------------------------------------------------- all blocks of a file

  function Run(e: Extent): seq<nat> {
    seq(e.length, i requires 0 <= i => e.start + i)
  }

  function Flat(es: seq<Extent>): seq<nat> {
    if es == [] then [] else Run(es[0]) + Flat(es[1..])
  }

  function FlatTables(t: Tables, es: seq<Extent>): seq<nat> {
    if es == [] then []
    else (if es[0].start == 0 then [] else Flat(Table(t, es[0].start))) + FlatTables(t, es[1..])
  }

  /** The direct, then the indirect, then the double-indirect extents; a pointer that is 0 points to nothing. */
  function FileBlocks(t: Tables, ino: INode): seq<nat> {
    Flat(ino.direct)
    + (if ino.indirect == 0 then [] else Flat(Table(t, ino.indirect)))
    + (if ino.dindirect == 0 then [] else FlatTables(t, Table(t, ino.dindirect)))
  }

  /** Extents in a table: block 0 belongs to no file, and block numbers do not wrap around. */
  ghost predicate Good(es: seq<Extent>) {
    forall i :: 0 <= i < |es| && es[i].length > 0 ==> 0 < es[i].start && es[i].start + es[i].length <= BLOCKNO
  }

  /** The used entries of a double-indirect block come first. */
  ghost predicate GoodTables(t: Tables, es: seq<Extent>) {
    && (forall i :: 0 <= i < |es| && es[i].start != 0 ==> Good(Table(t, es[i].start)))
    && (forall i, j :: 0 <= i < j < |es| && es[i].start == 0 ==> es[j].start == 0)
  }

  ghost predicate GoodFile(t: Tables, ino: INode) {
    && (forall i :: 0 <= i < |ino.direct| ==> ino.direct[i].start + ino.direct[i].length <= BLOCKNO)
    && (ino.indirect != 0 ==> Good(Table(t, ino.indirect)))
    && (ino.dindirect != 0 ==> ino.indirect != 0 && GoodTables(t, Table(t, ino.dindirect)))
  }

  lemma {:induction false} ScanIsIndexing(es: seq<Extent>, no: nat)
    requires forall i :: 0 <= i < |es| && es[i].length > 0 ==> es[i].start + es[i].length <= BLOCKNO
    ensures no < |Flat(es)| ==> Scan(es, no).0 == Some(Flat(es)[no])
    ensures no >= |Flat(es)| ==> Scan(es, no) == (None, no - |Flat(es)|)
  {
    if es != [] && es[0].length <= no {
      ScanIsIndexing(es[1..], no - es[0].length);
    }
  }

  lemma {:induction false} FlatNotZero(es: seq<Extent>, no: nat)
    requires Good(es) && no < |Flat(es)|
    ensures Flat(es)[no] != 0
  {
    if es[0].length <= no {
      FlatNotZero(es[1..], no - es[0].length);
    }
  }

  lemma {:induction false} FlatTablesEmpty(t: Tables, es: seq<Extent>)
    requires forall i :: 0 <= i < |es| ==> es[i].start == 0
    ensures FlatTables(t, es) == []
  {
    if es != [] {
      FlatTablesEmpty(t, es[1..]);
    }
  }

  lemma {:induction false} ScanTablesIsIndexing(t: Tables, es: seq<Extent>, no: nat)
    requires GoodTables(t, es) && no < |FlatTables(t, es)|
    ensures ScanTables(t, es, no).0 == FlatTables(t, es)[no]
  {
    if es[0].start == 0 {
      FlatTablesEmpty(t, es);
    } else {
      var table := Table(t, es[0].start);
      ScanIsIndexing(table, no);
      if no < |Flat(table)| {
        FlatNotZero(table, no);
      } else {
        ScanTablesIsIndexing(t, es[1..], no - |Flat(table)|);
      }
    }
  }

  /** The lookup behind the direct extents, for the two pointers. */
  lemma PointersAreIndexing(t: Tables, indirect: seq<Extent>, dindirect: seq<Extent>, no: nat)
    requires Good(indirect) && GoodTables(t, dindirect) && no < |Flat(indirect)| + |FlatTables(t, dindirect)|
    ensures FromPointers(t, indirect, dindirect, no) == (Flat(indirect) + FlatTables(t, dindirect))[no]
  {
    ScanIsIndexing(indirect, no);
    if no < |Flat(indirect)| {
      FlatNotZero(indirect, no);
    } else {
      ScanTablesIsIndexing(t, dindirect, no - |Flat(indirect)|);
    }
  }

  /** `get_block_no` is indexing into all blocks of the file. */
  lemma LookupIsIndexing(t: Tables, ino: INode, no: nat)
    requires GoodFile(t, ino) && no < |FileBlocks(t, ino)|
    ensures GetBlockNo(t, ino, no) == FileBlocks(t, ino)[no]
  {
    if no < |Flat(ino.direct)| {
      ScanIsIndexing(ino.direct, no);
    } else {
      BehindDirect(t, ino, no);
      var rest, table := no - |Flat(ino.direct)|, Table(t, ino.indirect);
      if ino.dindirect == 0 {
        ScanIsIndexing(table, rest);
        FlatNotZero(table, rest);
      } else {
        PointersAreIndexing(t, table, Table(t, ino.dindirect), rest);
      }
    }
  }

  /** All extents of the tables that a double-indirect block points to. */
  function TableExtents(t: Tables, es: seq<Extent>): seq<Extent> {
    if es == [] then []
    else (if es[0].start == 0 then [] else Table(t, es[0].start)) + TableExtents(t, es[1..])
  }

  /** All extents of a file. */
  function FileExtents(t: Tables, ino: INode): seq<Extent> {
    ino.direct
    + (if ino.indirect == 0 then [] else Table(t, ino.indirect))
    + (if ino.dindirect == 0 then [] else TableExtents(t, Table(t, ino.dindirect)))
  }

  lemma {:induction false} FlatConcat(a: seq<Extent>, b: seq<Extent>)
    ensures Flat(a + b) == Flat(a) + Flat(b)
    decreases |a|
  {
    if a == [] {
      assert a + b == b;
    } else {
      assert (a + b)[1..] == a[1..] + b;
      FlatConcat(a[1..], b);
    }
  }

  lemma {:induction false} FlatTableExtents(t: Tables, es: seq<Extent>)
    ensures Flat(TableExtents(t, es)) == FlatTables(t, es)
  {
    if es != [] {
      FlatTableExtents(t, es[1..]);
      FlatConcat(if es[0].start == 0 then [] else Table(t, es[0].start), TableExtents(t, es[1..]));
    }
  }

  lemma FlatFileExtents(t: Tables, ino: INode)
    ensures Flat(FileExtents(t, ino)) == FileBlocks(t, ino)
  {
    var a := if ino.indirect == 0 then [] else Table(t, ino.indirect);
    var b := if ino.dindirect == 0 then [] else TableExtents(t, Table(t, ino.dindirect));
    FlatConcat(ino.direct + a, b);
    FlatConcat(ino.direct, a);
    FlatTableExtents(t, Table(t, ino.dindirect));
  }

  /** No block belongs to both. */
  ghost predicate Disjoint(a: Extent, b: Extent) {
    a.length == 0 || b.length == 0 || a.start + a.length <= b.start || b.start + b.length <= a.start
  }

  ghost predicate PairwiseDisjoint(es: seq<Extent>) {
    forall i, j :: 0 <= i < j < |es| ==> Disjoint(es[i], es[j])
  }

  lemma {:induction false} InSomeExtent(es: seq<Extent>, no: nat) returns (i: nat)
    requires no < |Flat(es)|
    ensures i < |es| && es[i].start <= Flat(es)[no] < es[i].start + es[i].length
    decreases |es|
  {
    if no < es[0].length {
      i := 0;
    } else {
      var k := InSomeExtent(es[1..], no - es[0].length);
      i := k + 1;
    }
  }

  lemma {:induction false} DisjointIsDistinct(es: seq<Extent>, a: nat, b: nat)
    requires PairwiseDisjoint(es) && a < b < |Flat(es)|
    ensures Flat(es)[a] != Flat(es)[b]
    decreases |es|
  {
    var n := es[0].length;
    if a >= n {
      DisjointIsDistinct(es[1..], a - n, b - n);
    } else if b >= n {
      var k := InSomeExtent(es[1..], b - n);
      assert Disjoint(es[0], es[k + 1]);
    }
  }

  /** If the extents of a file are disjoint, no two block numbers have the same block. */
  lemma LookupIsInjective(t: Tables, ino: INode, a: nat, b: nat)
    requires GoodFile(t, ino) && a < |FileBlocks(t, ino)| && b < |FileBlocks(t, ino)|
    requires PairwiseDisjoint(FileExtents(t, ino))
    ensures GetBlockNo(t, ino, a) == GetBlockNo(t, ino, b) <==> a == b
  {
    LookupIsIndexing(t, ino, a);
    LookupIsIndexing(t, ino, b);
    FlatFileExtents(t, ino);
    if a != b {
      DisjointIsDistinct(FileExtents(t, ino), if a < b then a else b, if a < b then b else a);
    }
  }

  // ---------------------------------------------------------------- behind the end of a file

  lemma {:induction false} ScanTablesBehindEnd(t: Tables, es: seq<Extent>, no: nat)
    requires GoodTables(t, es) && no >= |FlatTables(t, es)| && forall i :: 0 <= i < |es| ==> es[i].start != 0
    ensures ScanTables(t, es, no) == (0, no - |FlatTables(t, es)|)
  {
    if es != [] {
      ScanIsIndexing(Table(t, es[0].start), no);
      ScanTablesBehindEnd(t, es[1..], no - |Flat(Table(t, es[0].start))|);
    }
  }

  /** A number behind the last block is answered with 0 if no pointer of the file is 0. */
  lemma BehindEndIsNoticed(t: Tables, ino: INode, no: nat)
    requires GoodFile(t, ino) && no >= |FileBlocks(t, ino)| && ino.indirect != 0 && ino.dindirect != 0
    requires forall i :: 0 <= i < |Table(t, ino.dindirect)| ==> Table(t, ino.dindirect)[i].start != 0
    ensures GetBlockNo(t, ino, no) == 0
  {
    BehindPointers(t, ino, no);
    ScanTablesBehindEnd(t, Table(t, ino.dindirect), no - |Flat(ino.direct)| - |Flat(Table(t, ino.indirect))|);
  }

  /** Block 0 is the superblock.  Read as a table of extents, its first entry is the block size and the number of inodes. */
  ghost predicate StartsWithSuperBlock(t: Tables, blocksize: nat, inodes: nat) {
    && Table(t, 0) != [] && Table(t, 0)[0] == Extent(blocksize, inodes)
    && 0 < blocksize && 0 < inodes && blocksize + inodes <= BLOCKNO
  }

  /**
   A pointer that is 0 is followed nevertheless: for a file that needs no pointer, as many missing blocks as
   there are inodes are not recognised as missing.
   */
  lemma MissingBlockIsNotNoticed(t: Tables, ino: INode, blocksize: nat, inodes: nat, no: nat)
    requires GoodFile(t, ino) && ino.indirect == 0 && StartsWithSuperBlock(t, blocksize, inodes)
    requires |FileBlocks(t, ino)| <= no < |FileBlocks(t, ino)| + inodes
    ensures GetBlockNo(t, ino, no) == blocksize + (no - |FileBlocks(t, ino)|) != 0
  {
    ScanIsIndexing(ino.direct, no);
  }

  /** So is an unused entry of the double-indirect block. */
  lemma {:induction false} UnusedEntryIsFollowed(t: Tables, es: seq<Extent>, blocksize: nat, inodes: nat, i: nat)
    requires GoodTables(t, es) && StartsWithSuperBlock(t, blocksize, inodes) && i < |es| && es[i].start == 0
    ensures ScanTables(t, es, |FlatTables(t, es)|).0 == blocksize
    decreases |es|
  {
    if es[0].start == 0 {
      FlatTablesEmpty(t, es);
    } else {
      ScanIsIndexing(Table(t, es[0].start), |FlatTables(t, es)|);
      UnusedEntryIsFollowed(t, es[1..], blocksize, inodes, i - 1);
    }
  }

  /** Every extent of the table is empty, or is just block 0. */
  ghost predicate Silent(es: seq<Extent>) {
    forall i, k :: 0 <= i < |es| && 0 <= k < es[i].length ==> SilentAt(es, i, k)
  }

  ghost predicate SilentAt(es: seq<Extent>, i: nat, k: nat)
    requires i < |es|
  {
    (es[i].start + k) % BLOCKNO == 0
  }

  lemma {:induction false} SilentScan(es: seq<Extent>, no: nat)
    requires Silent(es)
    ensures BlockOr0(Scan(es, no).0) == 0
  {
    if es != [] {
      if es[0].length > no {
        assert SilentAt(es, 0, no);
      } else {
        forall i, k | 0 <= i < |es[1..]| && 0 <= k < es[1..][i].length ensures SilentAt(es[1..], i, k) {
          assert SilentAt(es, i + 1, k);
        }
        SilentScan(es[1..], no - es[0].length);
      }
    }
  }

  /** An extent is reached by the number behind all extents in front of it. */
  lemma {:induction false} ReachExtent(es: seq<Extent>, i: nat, k: nat) returns (no: nat)
    requires i < |es| && k < es[i].length
    ensures Scan(es, no).0 == Some((es[i].start + k) % BLOCKNO)
    decreases |es|
  {
    if i == 0 {
      no := k;
    } else {
      var rest := ReachExtent(es[1..], i - 1, k);
      no := es[0].length + rest;
    }
  }

  /** And so is the end. */
  lemma {:induction false} ReachEnd(es: seq<Extent>, left: nat) returns (no: nat)
    ensures Scan(es, no) == (None, left)
    decreases |es|
  {
    if es == [] {
      no := left;
    } else {
      var rest := ReachEnd(es[1..], left);
      no := es[0].length + rest;
    }
  }

  lemma {:induction false} SilentTables(t: Tables, es: seq<Extent>, no: nat)
    requires forall i :: 0 <= i < |es| ==> Silent(Table(t, es[i].start))
    ensures ScanTables(t, es, no).0 == 0
    decreases |es|
  {
    if es != [] {
      SilentScan(Table(t, es[0].start), no);
      SilentTables(t, es[1..], Scan(Table(t, es[0].start), no).1);
    }
  }

  lemma {:induction false} LoudTable(t: Tables, es: seq<Extent>, i: nat) returns (no: nat)
    requires i < |es| && !Silent(Table(t, es[i].start))
    ensures ScanTables(t, es, no).0 != 0
    decreases |es|
  {
    var table := Table(t, es[0].start);
    if i == 0 {
      var j, k :| 0 <= j < |table| && 0 <= k < table[j].length && !SilentAt(table, j, k);
      no := ReachExtent(table, j, k);
    } else {
      var rest := LoudTable(t, es[1..], i - 1);
      no := ReachEnd(table, rest);
    }
  }

  /**
   When numbers behind the end are noticed.  Without an indirect block: never.  Without a double-indirect
   one, the superblock is read as a list of tables, and none of these may contain a block.  Otherwise
   no entry of the double-indirect block may be unused.
   */
  ghost predicate EndIsNoticed(t: Tables, ino: INode) {
    var dd := Table(t, ino.dindirect);
    && ino.indirect != 0
    && if ino.dindirect == 0 then forall i :: 0 <= i < |dd| ==> Silent(Table(t, dd[i].start))
       else forall i :: 0 <= i < |dd| ==> dd[i].start != 0
  }

  lemma BehindEndExactly(t: Tables, ino: INode, blocksize: nat, inodes: nat)
    requires GoodFile(t, ino) && StartsWithSuperBlock(t, blocksize, inodes)
    ensures (forall no :: no >= |FileBlocks(t, ino)| ==> GetBlockNo(t, ino, no) == 0) <==> EndIsNoticed(t, ino)
  {
    if ino.indirect == 0 {
      MissingBlockIsNotNoticed(t, ino, blocksize, inodes, |FileBlocks(t, ino)|);
    } else if ino.dindirect == 0 {
      BehindIndirect(t, ino);
    } else {
      BehindDoubleIndirect(t, ino, blocksize, inodes);
    }
  }

  lemma BehindIndirect(t: Tables, ino: INode)
    requires GoodFile(t, ino) && ino.indirect != 0 && ino.dindirect == 0
    ensures (forall no :: no >= |FileBlocks(t, ino)| ==> GetBlockNo(t, ino, no) == 0) <==> EndIsNoticed(t, ino)
  {
    var es := Table(t, 0);
    if i :| 0 <= i < |es| && !Silent(Table(t, es[i].start)) {
      var no := LoudEnd(t, ino, i);
    } else {
      SilentEnd(t, ino);
    }
  }

  lemma LoudEnd(t: Tables, ino: INode, i: nat) returns (no: nat)
    requires GoodFile(t, ino) && ino.indirect != 0 && ino.dindirect == 0
    requires i < |Table(t, 0)| && !Silent(Table(t, Table(t, 0)[i].start))
    ensures no >= |FileBlocks(t, ino)| && GetBlockNo(t, ino, no) != 0
  {
    var n := LoudTable(t, Table(t, 0), i);
    no := |FileBlocks(t, ino)| + n;
    BehindIndirectAt(t, ino, no);
  }

  lemma SilentEnd(t: Tables, ino: INode)
    requires GoodFile(t, ino) && ino.indirect != 0 && ino.dindirect == 0
    requires forall i :: 0 <= i < |Table(t, 0)| ==> Silent(Table(t, Table(t, 0)[i].start))
    ensures forall no :: no >= |FileBlocks(t, ino)| ==> GetBlockNo(t, ino, no) == 0
  {
    forall no | no >= |FileBlocks(t, ino)| ensures GetBlockNo(t, ino, no) == 0 {
      SilentTables(t, Table(t, 0), no - |FileBlocks(t, ino)|);
      BehindIndirectAt(t, ino, no);
    }
  }

  lemma BehindIndirectAt(t: Tables, ino: INode, no: nat)
    requires GoodFile(t, ino) && ino.indirect != 0 && ino.dindirect == 0 && no >= |FileBlocks(t, ino)|
    ensures GetBlockNo(t, ino, no) == ScanTables(t, Table(t, 0), no - |FileBlocks(t, ino)|).0
  {
    BehindPointers(t, ino, no);
  }

  lemma BehindDoubleIndirect(t: Tables, ino: INode, blocksize: nat, inodes: nat)
    requires GoodFile(t, ino) && StartsWithSuperBlock(t, blocksize, inodes) && ino.indirect != 0 && ino.dindirect != 0
    ensures (forall no :: no >= |FileBlocks(t, ino)| ==> GetBlockNo(t, ino, no) == 0) <==> EndIsNoticed(t, ino)
  {
    var dd := Table(t, ino.dindirect);
    if i :| 0 <= i < |dd| && dd[i].start == 0 {
      UnusedEnd(t, ino, blocksize, inodes, i);
    } else {
      forall no | no >= |FileBlocks(t, ino)| ensures GetBlockNo(t, ino, no) == 0 {
        BehindEndIsNoticed(t, ino, no);
      }
    }
  }

  lemma UnusedEnd(t: Tables, ino: INode, blocksize: nat, inodes: nat, i: nat)
    requires GoodFile(t, ino) && StartsWithSuperBlock(t, blocksize, inodes) && ino.indirect != 0 && ino.dindirect != 0
    requires i < |Table(t, ino.dindirect)| && Table(t, ino.dindirect)[i].start == 0
    ensures GetBlockNo(t, ino, |FileBlocks(t, ino)|) != 0
  {
    BehindPointers(t, ino, |FileBlocks(t, ino)|);
    UnusedEntryIsFollowed(t, Table(t, ino.dindirect), blocksize, inodes, i);
  }

  /** The same file on two disks: the first number behind its end gets block 7, or every number is noticed. */
  lemma IndirectEndDepends()
    ensures var ino := INode(1, false, 0, 4, [], 5, 0);
            var loud := map[0 := [Extent(4096, 8)], 5 := [], 4096 := [Extent(7, 1)]];
            var silent := map[0 := [Extent(4096, 8)], 5 := []];
            && GoodFile(loud, ino) && FileBlocks(loud, ino) == [] && GetBlockNo(loud, ino, 0) == 7
            && GoodFile(silent, ino) && FileBlocks(silent, ino) == [] && EndIsNoticed(silent, ino)
  {
    var ino := INode(1, false, 0, 4, [], 5, 0);
    var loud: Tables := map[0 := [Extent(4096, 8)], 5 := [], 4096 := [Extent(7, 1)]];
    BehindPointers(loud, ino, 0);
    assert Scan([Extent(7, 1)], 0) == (Some(7), 0);
  }

  lemma BehindPointers(t: Tables, ino: INode, no: nat)
    requires GoodFile(t, ino) && no >= |FileBlocks(t, ino)| && ino.indirect != 0
    ensures |FileBlocks(t, ino)| >= |Flat(ino.direct)| + |Flat(Table(t, ino.indirect))|
    ensures GetBlockNo(t, ino, no)
         == ScanTables(t, Table(t, ino.dindirect), no - |Flat(ino.direct)| - |Flat(Table(t, ino.indirect))|).0
  {
    BehindDirect(t, ino, no);
    BehindTable(t, Table(t, ino.indirect), Table(t, ino.dindirect), no - |Flat(ino.direct)|);
  }

  lemma BehindDirect(t: Tables, ino: INode, no: nat)
    requires GoodFile(t, ino) && no >= |Flat(ino.direct)|
    ensures GetBlockNo(t, ino, no) == FromPointers(t, Table(t, ino.indirect), Table(t, ino.dindirect), no - |Flat(ino.direct)|)
  {
    ScanIsIndexing(ino.direct, no);
  }

  lemma BehindTable(t: Tables, indirect: seq<Extent>, dindirect: seq<Extent>, no: nat)
    requires Good(indirect) && no >= |Flat(indirect)|
    ensures FromPointers(t, indirect, dindirect, no) == ScanTables(t, dindirect, no - |Flat(indirect)|).0
  {
    ScanIsIndexing(indirect, no);
  }

  // ---------------------------------------------------------------- the loops

  /** `get_block_no_rec` with layer 0. */
  method FindInTable(es: seq<Extent>, start: nat) returns (res: Option<nat>, no: nat)
    ensures (res, no) == Scan(es, start)
  {
    no := start;
    var i := 0;
    while i < |es|
      invariant 0 <= i <= |es| && Scan(es[i..], no) == Scan(es, start)
    {
      if es[i].length > no {
        return Some((es[i].start + no) % BLOCKNO), no;
      }
      no := no - es[i].length;
      i := i + 1;
    }
    return None, no;
  }

  /** `get_block_no`. */
  method FindBlock(t: Tables, ino: INode, start: nat) returns (res: nat)
    ensures res == GetBlockNo(t, ino, start)
  {
    var b, no := FindInTable(ino.direct, start);
    if b.Some? {
      return b.value;
    }
    b, no := FindInTable(Table(t, ino.indirect), no);
    if BlockOr0(b) != 0 {
      return BlockOr0(b);
    }
    var es := Table(t, ino.dindirect);
    ghost var left := no;
    var i := 0;
    while i < |es|
      invariant 0 <= i <= |es| && ScanTables(t, es[i..], no).0 == ScanTables(t, es, left).0
    {
      b, no := FindInTable(Table(t, es[i].start), no);
      if BlockOr0(b) != 0 {
        return BlockOr0(b);
      }
      i := i + 1;
    }
    return 0;
  }
}
