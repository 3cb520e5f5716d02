/** Directories of a mounted volume: the blocks of a directory inode are the
    blocks of its contents as a file, so the scans of path lookup and of
    `op_readdir` work on that file's bytes. */
module DirFile {
  import opened Machine
  import opened Disk
  import opened BlockMap
  import opened FileRead
  import opened ReadOp
  import opened Super
  import opened Directory
  import PathWalk

  /** What `dir_ctx_update` reads for logical block `l`. */
  function DirBlock(disk: Image, bs: nat, inode: Inode, l: nat): Outcome<seq<Byte>>
    requires IsBlockSize(bs) && Decodable(disk, bs, inode)
  {
    var run :- DataPblock(disk, bs, inode, l);
    DiskRead(disk, BlocksToBytes(run.pblock, bs), bs)
  }

  function DirOf(disk: Image, bs: nat, inode: Inode): Dir
    requires IsBlockSize(bs) && Decodable(disk, bs, inode)
  {
    Dir(bs, inode.size, (l: nat) => DirBlock(disk, bs, inode, l))
  }

  function Contents(disk: Image, bs: nat, inode: Inode): seq<Byte>
    requires IsBlockSize(bs) && Decodable(disk, bs, inode)
  {
    FileBytes(disk, bs, TableOf(disk, bs, inode), 0, inode.size)
  }

  /** A directory inode whose blocks are all there and whose records tile it. */
  ghost predicate GoodDir(disk: Image, bs: nat, inode: Inode) {
    && ValidMap(disk, bs, inode) && bs < TWO31
    && 0 < inode.size < TWO32
    && RangeMapped(disk, bs, inode, 0, inode.size)
    && (forall l :: 0 <= l && BlocksToBytes(l, bs) < inode.size ==> Physical(disk, bs, inode, l) != 0)
    && Tiled(Contents(disk, bs, inode), bs, 0)
  }

  /** A mapped block of the directory holds the bytes of the file. */
  lemma {:induction false} BlockHolds(disk: Image, bs: nat, inode: Inode, l: nat)
    requires ValidMap(disk, bs, inode) && bs < TWO31 && l < TWO32 - 1
    requires Mapped(disk, bs, inode, l)
    requires OnDisk(disk, bs, Physical(disk, bs, inode, l)) && Physical(disk, bs, inode, l) != 0
    ensures DirBlock(disk, bs, inode, l)
            == DiskRead(disk, BlocksToBytes(Physical(disk, bs, inode, l), bs), bs)
    ensures DirBlock(disk, bs, inode, l).Ok?
  {
    hide DataPblock, Physical, Mapped, Decodable;
    DataPblockSound(disk, bs, inode, l);
  }

  lemma {:induction false} DirBacked(disk: Image, bs: nat, inode: Inode)
    requires GoodDir(disk, bs, inode)
    ensures Backed(DirOf(disk, bs, inode), Contents(disk, bs, inode))
  {
    hide DataPblock, Physical, Mapped, Decodable, Tiled;
    var dir, s := DirOf(disk, bs, inode), Contents(disk, bs, inode);
    forall o | 0 <= o < |s| ensures ByteBacked(dir, s, o) {
      DirByte(disk, bs, inode, o);
    }
    assert ByteBacked(dir, s, 0);
    assert 0 / bs == 0;
    forall l: nat | dir.block(l).Ok? ensures |dir.block(l).value| == bs {
      assert dir.block(l) == DirBlock(disk, bs, inode, l);
    }
  }

  /** A byte of a file, read with the whole of its block. */
  lemma {:induction false} ByteOfBlock(disk: Image, bs: nat, table: BlockTable, o: nat, p: nat)
    requires 1 <= bs < TWO31 && table(o / bs) == p != 0 && OnDisk(disk, bs, p)
    ensures var r := DiskRead(disk, BlocksToBytes(p, bs), bs);
            r.Ok? && o % bs < bs && r.value[o % bs] == FileByte(disk, bs, table, o)
  {
  }

  lemma {:induction false} DirByte(disk: Image, bs: nat, inode: Inode, o: nat)
    requires GoodDir(disk, bs, inode) && o < inode.size
    ensures ByteBacked(DirOf(disk, bs, inode), Contents(disk, bs, inode), o)
  {
    hide DataPblock, Physical, Mapped, Decodable, Tiled, BlocksToBytes, OnDisk, DirBlock, FileByte;
    var dir, s, table := DirOf(disk, bs, inode), Contents(disk, bs, inode), TableOf(disk, bs, inode);
    var l := o / bs;
    BlockOf(o, bs);
    var p := Physical(disk, bs, inode, l);
    assert OnDisk(disk, bs, p) && p != 0;
    BlockHolds(disk, bs, inode, l);
    assert dir.block(l) == DirBlock(disk, bs, inode, l) && table(l) == p;
    ByteOfBlock(disk, bs, table, o, p);
    assert s[o] == FileByte(disk, bs, table, 0 + o);
  }

  lemma {:induction false} BlockOf(o: nat, bs: nat)
    requires bs >= 1
    ensures BlocksToBytes(o / bs, bs) <= o && 0 <= o / bs <= o && 0 / bs == 0
  {
    BlockSplit(0, o, bs);
    DivAtMost(o, bs);
    BlockStart(0, bs);
  }

  // ---- Path lookup and listing on a volume ----

  const S_IFMT: nat := 0xf000
  const S_IFDIR: nat := 0x4000

  /** `S_ISDIR`: the mask takes the top four bits of the 16-bit mode. */
  lemma {:induction false} ModeBits(mode: nat)
    requires mode < 0x1_0000
    ensures And(mode, 0xf000) == 0x1000 * (mode / 0x1000)
  {
    hide And, Pow2;
    AndBits(mode, 12, 16);
    TopFour();
    assert mode % 0x1_0000 == mode;
  }

  lemma {:induction false} TopFour()
    ensures Pow2(12) == 0x1000 && Pow2(16) == 0x1_0000
  {
    assert Pow2(8) == 0x100;
  }

  ghost predicate GoodDirAt(v: Volume, ino: nat) {
    && ValidSuper(v.super) && |v.tables| == NumGroups(v.super)
    && var i := GetInode(v, ino);
       i.Ok? && i.value.Some? && GoodDir(v.disk, BlockSize(v.super), i.value.value)
  }

  ghost function DirInode(v: Volume, ino: nat): Inode
    requires GoodDirAt(v, ino)
  {
    GetInode(v, ino).value.value
  }

  ghost function DirContents(v: Volume, ino: nat): seq<Byte>
    requires GoodDirAt(v, ino)
  {
    Contents(v.disk, BlockSize(v.super), DirInode(v, ino))
  }

  ghost predicate IsDirAt(v: Volume, ino: nat) {
    GoodDirAt(v, ino) && DirInode(v, ino).mode / 0x1000 == 4
  }

  /** The inode number that the records of directory `ino` give a name. */
  ghost function FindAt(v: Volume, ino: nat, name: Name): nat {
    if GoodDirAt(v, ino) then Find(Records(DirContents(v, ino), BlockSize(v.super), 0), name) else 0
  }

  /** The directories of a volume, as path resolution sees them. */
  ghost function VolumeDirs(v: Volume): PathWalk.Dirs {
    PathWalk.Dirs((ino: nat) => IsDirAt(v, ino), (ino: nat, name: Name) => FindAt(v, ino, name))
  }

  /** One step of path resolution on a volume: reads the inode, scans its
      records through the block buffer, and looks at its mode. */
  method FindInVolume(v: Volume, ino: nat, name: Name) returns (x: nat, isDir: bool)
    requires GoodDirAt(v, ino)
    ensures x == VolumeDirs(v).find(ino, name) && isDir == VolumeDirs(v).isDir(ino)
  {
    hide GetInode, BlockSize, GoodDir, ValidSuper, NumGroups, Find, Records, Tiled, Contents, Decodable, Backed, And;
    var inode, bs := GetInode(v, ino).value.value, BlockSize(v.super);
    GoodDirFacts(v.disk, bs, inode);
    ModeBits(inode.mode);
    x := Directory.Lookup(DirOf(v.disk, bs, inode), name, Contents(v.disk, bs, inode));
    isDir := And(inode.mode, S_IFMT) == S_IFDIR;
  }

  lemma {:induction false} GoodDirFacts(disk: Image, bs: nat, inode: Inode)
    requires GoodDir(disk, bs, inode)
    ensures IsBlockSize(bs) && Decodable(disk, bs, inode)
    ensures Backed(DirOf(disk, bs, inode), Contents(disk, bs, inode))
    ensures Tiled(Contents(disk, bs, inode), bs, 0)
  {
    DirBacked(disk, bs, inode);
  }

  /** Every inode whose records the walk scans is a good directory. */
  ghost predicate Walkable(v: Volume, ino: nat, toks: seq<Name>)
    decreases toks
  {
    toks == [] ||
    (GoodDirAt(v, ino) &&
     var x := VolumeDirs(v).find(ino, toks[0]);
     x == 0 || Walkable(v, x, toks[1..]))
  }

  /** What is left of a walk behind a legitimate prefix. */
  lemma {:induction false} WalkableRest(v: Volume, ino: nat, p: seq<Name>, q: seq<Name>)
    requires Walkable(v, ino, p + q) && PathWalk.Legit(VolumeDirs(v), ino, p)
    ensures Walkable(v, PathWalk.Walk(VolumeDirs(v), ino, p), q)
    decreases p
  {
    hide GoodDirAt, VolumeDirs;
    if p == [] {
      assert p + q == q;
    } else {
      assert (p + q)[1..] == p[1..] + q;
      WalkableRest(v, VolumeDirs(v).find(ino, p[0]), p[1..], q);
    }
  }

  /** In any directory that a path leads to: a name is listed by `op_readdir`
      iff resolving the path with that name behind it finds an inode. */
  lemma {:induction false} ListedIffResolved(v: Volume, toks: seq<Name>, name: Name)
    requires PathWalk.Walk(VolumeDirs(v), PathWalk.ROOT, toks) != 0
    requires var ino := PathWalk.Walk(VolumeDirs(v), PathWalk.ROOT, toks);
             GoodDirAt(v, ino) && CleanDir(DirContents(v, ino), BlockSize(v.super), 0)
    ensures var s := DirContents(v, PathWalk.Walk(VolumeDirs(v), PathWalk.ROOT, toks));
            (exists e :: e in Listing(s, BlockSize(v.super), 0) && e.name == name)
            <==> PathWalk.Walk(VolumeDirs(v), PathWalk.ROOT, toks + [name]) != 0
  {
    hide GetInode, BlockSize, GoodDir, ValidSuper, NumGroups, Find, Records, Tiled, Contents, Listing, CleanDir, PathWalk.Walk;
    var d := VolumeDirs(v);
    var ino := PathWalk.Walk(d, PathWalk.ROOT, toks);
    var s, bs := DirContents(v, ino), BlockSize(v.super);
    GoodDirFacts(v.disk, bs, DirInode(v, ino));
    ListingAgrees(s, bs, 0, name);
    PathWalk.WalkJoin(d, PathWalk.ROOT, toks, [name]);
    PathWalk.LegitOne(d, ino, name);
  }
}
