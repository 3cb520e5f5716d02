/** Whole volumes, from the bytes on the disk to what a lookup or a read finds. */
module VolumeLayout {
  import opened Machine
  import opened Disk
  import opened Layout
  import opened Extents
  import opened ExtentReader
  import opened BlockMap
  import opened FileRead
  import opened Super
  import opened ReadOp
  import opened SuperLayout
  import opened ExtentLayout
  import D = Directory
  import L = DirLayout
  import F = DirFile

  // ---- Files ----

  /** An inode with the extents bit whose block field starts with a laid-out
      tree is read as having that tree. */
  lemma {:induction false} TreeStored(disk: Image, bs: nat, i: RawInode, p: Laid, depth: nat)
    requires GoodInode(i) && And(i.flags, 0x0008_0000) != 0
    requires Placed(disk, bs, p, depth) && NodeImage(p, depth) <= i.iblock
    ensures Decodable(disk, bs, Meaning(i)) && TreeOf(disk, bs, Meaning(i)) == TreeFrom(p)
  {
    hide GoodInode, NodeImage, Placed, Decode, TreeFrom, And;
    StoredDecodes(disk, bs, p, depth, i.iblock);
  }

  // ---- A directory in consecutive blocks ----

  /** An inode whose `n` blocks lie from block `start` on. */
  predicate Straight(i: RawInode, bs: nat, n: nat, start: nat, max: nat, generation: nat) {
    && GoodInode(i) && And(i.flags, 0x0008_0000) != 0
    && 1 <= n < 0x1_0000 && 1 <= start && start + n <= TWO32
    && max < 0x1_0000 && generation < TWO32
    && NodeImage(LaidLeaf(max, generation, [Extent(0, n, start)]), 0) <= i.iblock
    && i.sizeLo == n * bs && i.sizeHigh == 0
  }

  lemma {:induction false} StraightTree(disk: Image, bs: nat, i: RawInode, n: nat, start: nat, max: nat, generation: nat)
    requires Straight(i, bs, n, start, max, generation) && IsBlockSize(bs)
    ensures ValidMap(disk, bs, Meaning(i)) && Meaning(i).extents
    ensures TreeOf(disk, bs, Meaning(i)) == Leaf([Extent(0, n, start)])
  {
    hide GoodInode, NodeImage, Decode, And, Decodable, TreeOf, Placed;
    var p := LaidLeaf(max, generation, [Extent(0, n, start)]);
    StraightPlaced(disk, bs, i, n, start, max, generation);
    TreeStored(disk, bs, i, p, 0);
    assert TreeFrom(p) == Leaf([Extent(0, n, start)]);
  }

  lemma {:induction false} StraightPlaced(disk: Image, bs: nat, i: RawInode, n: nat, start: nat, max: nat, generation: nat)
    requires Straight(i, bs, n, start, max, generation)
    ensures Placed(disk, bs, LaidLeaf(max, generation, [Extent(0, n, start)]), 0)
  {
    hide GoodInode, NodeImage, And;
    var p := LaidLeaf(max, generation, [Extent(0, n, start)]);
    assert |NodeEntries(p)| == 1;
    assert InWidth(p, 0);
  }

  lemma {:induction false} StraightBlock(disk: Image, bs: nat, i: RawInode, n: nat, start: nat, max: nat, generation: nat, l: nat)
    requires Straight(i, bs, n, start, max, generation) && IsBlockSize(bs) && l < n
    ensures Decodable(disk, bs, Meaning(i)) && Mapped(disk, bs, Meaning(i), l)
    ensures Physical(disk, bs, Meaning(i), l) == start + l
  {
    hide Straight, Decodable, TreeOf, ValidTree;
    StraightTree(disk, bs, i, n, start, max, generation);
    StraightFacts(i, bs, n, start, max, generation);
    var es := [Extent(0, n, start)];
    assert es[0] in es && Covers(es[0], l);
    assert Flatten(Leaf(es)) == es;
  }

  lemma {:induction false} StraightFacts(i: RawInode, bs: nat, n: nat, start: nat, max: nat, generation: nat)
    requires Straight(i, bs, n, start, max, generation)
    ensures GoodInode(i) && Meaning(i).size == n * bs && 1 <= n && 1 <= start
  {
    hide And, NodeImage;
  }

  /** The contents of such a file are those blocks of the disk. */
  lemma {:induction false} StraightContents(disk: Image, bs: nat, i: RawInode, n: nat, start: nat, max: nat, generation: nat, s: seq<Byte>)
    requires Straight(i, bs, n, start, max, generation) && IsBlockSize(bs)
    requires Holds(disk, BlocksToBytes(start, bs), s) && |s| == BlocksToBytes(n, bs)
    ensures Decodable(disk, bs, Meaning(i)) && F.Contents(disk, bs, Meaning(i)) == s
  {
    hide Straight, Decodable, Mapped, Physical, FileByte, FileBytes, Meaning, BlocksToBytes;
    StraightFacts(i, bs, n, start, max, generation);
    StraightBlock(disk, bs, i, n, start, max, generation, 0);
    var table := TableOf(disk, bs, Meaning(i));
    forall l | 0 <= l < 0 + n ensures table(l) == start + (l - 0) {
      StraightBlock(disk, bs, i, n, start, max, generation, l);
    }
    StepBytes(disk, bs, table, 0, Run(start, n), |s|);
    FirstBlock(bs);
    SizeInBlocks(i, bs, n, start, max, generation);
    HoldsSlice(disk, BlocksToBytes(start, bs), s);
  }

  lemma {:induction false} SizeInBlocks(i: RawInode, bs: nat, n: nat, start: nat, max: nat, generation: nat)
    requires Straight(i, bs, n, start, max, generation)
    ensures GoodInode(i) && Meaning(i).size == BlocksToBytes(n, bs)
  {
    hide And, NodeImage;
  }

  lemma {:induction false} StraightOnDisk(disk: Image, bs: nat, n: nat, start: nat, l: nat)
    requires bs >= 1 && l < n && BlocksToBytes(start, bs) + BlocksToBytes(n, bs) <= |disk|
    ensures OnDisk(disk, bs, start + l)
  {
    hide BlocksToBytes;
    BlocksGrow(start, l + 1, bs);
    BlocksGrow(l + 1, n, bs);
    BlocksGrow(start + l, 1, bs);
    OneBlock(bs);
  }

  /** A directory written as a list of records into consecutive blocks is a good
      directory with those records. */
  lemma {:induction false} DirectoryStored(disk: Image, bs: nat, i: RawInode, n: nat, start: nat, max: nat, generation: nat, es: seq<L.DirEntry>)
    requires Straight(i, bs, n, start, max, generation) && IsBlockSize(bs) && bs < TWO31 && BlocksToBytes(n, bs) < TWO32
    requires L.AllGood(es) && L.InBlocks(es, bs, 0) && |L.DirBytes(es)| == BlocksToBytes(n, bs)
    requires Holds(disk, BlocksToBytes(start, bs), L.DirBytes(es))
    ensures F.GoodDir(disk, bs, Meaning(i))
    ensures D.Records(F.Contents(disk, bs, Meaning(i)), bs, 0) == L.RecordsOf(es)
  {
    hide Straight, Decodable, Mapped, Physical, FileByte, FileBytes, Meaning, BlocksToBytes, F.Contents, D.Tiled, D.Records, L.DirBytes, L.InBlocks, L.AllGood, L.RecordsOf, OnDisk;
    StraightFacts(i, bs, n, start, max, generation);
    SizeInBlocks(i, bs, n, start, max, generation);
    StraightTree(disk, bs, i, n, start, max, generation);
    StraightContents(disk, bs, i, n, start, max, generation, L.DirBytes(es));
    L.DirWritten([], es, bs);
    assert [] + L.DirBytes(es) == L.DirBytes(es);
    HoldsSlice(disk, BlocksToBytes(start, bs), L.DirBytes(es));
    FirstBlock(bs);
    BlockStart(0, bs);
    BlocksGrow(1, n, bs);
    OneBlock(bs);
    forall l: nat | BlocksToBytes(l, bs) < Meaning(i).size
      ensures Mapped(disk, bs, Meaning(i), l) && OnDisk(disk, bs, Physical(disk, bs, Meaning(i), l))
      ensures Physical(disk, bs, Meaning(i), l) != 0
    {
      BlocksGrow(n, l, bs);
      StraightBlock(disk, bs, i, n, start, max, generation, l);
      StraightOnDisk(disk, bs, n, start, l);
    }
  }

  /** On a volume whose slot (group, slot) holds a directory inode, and whose
      blocks hold the directory's records: looking a name up in that directory
      finds what the records say. */
  lemma {:induction false} LookupStored(v: Volume, group: nat, slot: nat, i: RawInode, n: nat, start: nat,
                                        max: nat, generation: nat, es: seq<L.DirEntry>, name: Name)
    requires ValidSuper(v.super) && |v.tables| == NumGroups(v.super) && IsBlockSize(BlockSize(v.super)) && BlockSize(v.super) < TWO31
    requires group < |v.tables| && slot < v.super.inodesPerGroup && SlotStart(slot, v.super.inodeSize) < TWO32
    requires Straight(i, BlockSize(v.super), n, start, max, generation) && BlocksToBytes(n, BlockSize(v.super)) < TWO32
    requires GoodInode(i) && Holds(v.disk, SlotPlace(v, group, slot), SlotContents(v, i))
    requires L.AllGood(es) && L.InBlocks(es, BlockSize(v.super), 0)
    requires |L.DirBytes(es)| == BlocksToBytes(n, BlockSize(v.super))
    requires Holds(v.disk, BlocksToBytes(start, BlockSize(v.super)), L.DirBytes(es))
    ensures F.GoodDirAt(v, NumberOf(v, group, slot))
    ensures F.VolumeDirs(v).find(NumberOf(v, group, slot), name) == D.Find(L.RecordsOf(es), name)
  {
    hide Straight, Meaning, BlocksToBytes, F.Contents, D.Tiled, D.Records, L.DirBytes, L.InBlocks, L.AllGood, L.RecordsOf,
         GetInode, BlockSize, NumGroups, SlotPlace, SlotContents, Holds, SlotStart, F.GoodDir, NumberOf, D.Find;
    InodeStored(v, group, slot, i);
    DirectoryStored(v.disk, BlockSize(v.super), i, n, start, max, generation, es);
  }
}
