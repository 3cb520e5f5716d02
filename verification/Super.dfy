/** Superblock arithmetic, the group descriptor table and inode placement
    (fuse/super.c, `inode_get_by_number` in fuse/inode.c). */
module Super {
  import opened Machine
  import opened Disk
  import opened BlockMap

  const BOOT_SECTOR: nat := 0x400
  const SUPER_BYTES: nat := 0x400
  const GROUP_DESC_MIN: nat := 0x20
  const GROUP_DESC: nat := 0x40
  const INODE_STRUCT: nat := 156
  const EXTENTS_FL: nat := 0x80000

  datatype SuperBlock = SuperBlock(
    logBlockSize: nat, blocksCount: nat, blocksPerGroup: nat,
    inodesPerGroup: nat, inodeSize: nat, descSize: nat)

  /** A mounted image: `tables[g]` is the inode table block of group g. */
  datatype Volume = Volume(disk: Image, super: SuperBlock, tables: seq<nat>)

  /** The fields of a raw superblock that are used. */
  function ParseSuper(raw: seq<Byte>): SuperBlock
    requires |raw| >= 256
  {
    SuperBlock(LE32(raw, 24), LE32(raw, 4), LE32(raw, 32), LE32(raw, 40), LE16(raw, 88), LE16(raw, 254))
  }

  /** `super_fill`: the superblock follows the boot sector. */
  function ReadSuper(disk: Image): Outcome<SuperBlock> {
    var raw :- DiskRead(disk, BOOT_SECTOR, SUPER_BYTES);
    Ok(ParseSuper(raw))
  }

  /** `super_block_size`: a 64-bit shift, truncated to 32 bits. */
  function BlockSize(s: SuperBlock): nat { U32(Pow2(s.logBlockSize + 10)) }

  /** `super_n_block_groups`: a rounded-up 32-bit quotient, at least 1. */
  function NumGroups(s: SuperBlock): (n: nat)
    requires s.blocksPerGroup > 0
    ensures n >= 1
  {
    var n := U32(s.blocksCount + s.blocksPerGroup - 1) / s.blocksPerGroup;
    if n != 0 then n else 1
  }

  /** `super_group_desc_size`. */
  function DescSize(s: SuperBlock): nat { if s.descSize == 0 then GROUP_DESC_MIN else GROUP_DESC }

  /** Fields of their widths on disk, a block size that fits in 32 bits, no
      empty groups, and inodes of at least the original size. */
  predicate ValidSuper(s: SuperBlock) {
    && s.logBlockSize <= 21
    && 0 < s.blocksPerGroup < TWO32 && s.blocksCount < TWO32
    && 0 < s.inodesPerGroup < TWO32 && 128 <= s.inodeSize < 0x1_0000
  }

  lemma {:induction false} KiloByte()
    ensures Pow2(10) == 1024
  {
  }

  lemma {:induction false} BlockSizeValue(s: SuperBlock)
    requires s.logBlockSize <= 21
    ensures BlockSize(s) == Pow2(s.logBlockSize + 10) && 1024 <= BlockSize(s) < TWO32
    ensures IsBlockSize(BlockSize(s))
  {
    hide Pow2, U32;
    var k := s.logBlockSize + 10;
    Pow2Grows(k, 31);
    Pow2Grows(10, k);
    Pow2Thirty2();
    Pow2Step(32);
    Pow2Step(k);
    Pow2Step(k - 1);
    KiloByte();
    U32Small(Pow2(k));
  }

  /** Byte offset of descriptor `i` on the disk. */
  function DescOffset(s: SuperBlock, i: nat): nat
    requires 1 <= BlockSize(s)
  {
    AlignTo(BOOT_SECTOR + SUPER_BYTES, BlockSize(s)) + U32(i * DescSize(s))
  }

  /** The groups cover all blocks if and only if the 32-bit sum behind the
      rounded-up quotient does not wrap, or one group is enough; the count is
      never more than is needed. */
  lemma {:induction false} GroupsCover(s: SuperBlock)
    requires 0 < s.blocksPerGroup < TWO32 && s.blocksCount < TWO32
    ensures s.blocksCount <= NumGroups(s) * s.blocksPerGroup
            <==> s.blocksCount + s.blocksPerGroup <= TWO32 || s.blocksCount <= s.blocksPerGroup
    ensures NumGroups(s) > 1 ==> (NumGroups(s) - 1) * s.blocksPerGroup < s.blocksCount
  {
    hide U32;
    var c, per := s.blocksCount, s.blocksPerGroup;
    if c + per <= TWO32 {
      U32Small(c + per - 1);
      CeilingDivision(c, per);
    } else {
      WrappedSum(c, per);
      assert U32(c + per - 1) < per && U32(c + per - 1) / per == 0 by {
        ModUnique(U32(c + per - 1), 0, per, U32(c + per - 1));
      }
    }
  }

  /** A sum that wraps comes out below both its parts. */
  lemma {:induction false} WrappedSum(c: nat, per: nat)
    requires 0 < per < TWO32 && c < TWO32 && c + per > TWO32
    ensures U32(c + per - 1) == c + per - 1 - TWO32
  {
  }

  /** The failing case: the largest block count, in groups of 32768 blocks,
      gives one group; its blocks from 32768 on belong to none. */
  lemma {:induction false} GroupsWrap(s: SuperBlock)
    requires s.blocksCount == TWO32 - 1 && s.blocksPerGroup == 0x8000
    ensures NumGroups(s) == 1 && NumGroups(s) * s.blocksPerGroup < s.blocksCount
  {
  }

  lemma {:induction false} CeilingDivision(n: nat, d: nat)
    requires d >= 1
    ensures var q := (n + d - 1) / d;
            n <= q * d && (q >= 1 ==> (q - 1) * d < n)
  {
    var q, r := (n + d - 1) / d, (n + d - 1) % d;
    assert n + d - 1 == q * d + r;
    assert q >= 1 ==> (q - 1) * d == q * d - d;
  }

  /** Where the descriptors lie: the table starts at the first block boundary
      behind the superblock, and descriptor `i` is the i-th from there exactly
      as long as the 32-bit product does not wrap. */
  lemma {:induction false} DescriptorPlace(s: SuperBlock, i: nat) returns (base: nat)
    requires ValidSuper(s)
    ensures 1 <= BlockSize(s) && IsLeastMultiple(base, 2048, BlockSize(s))
    ensures DescOffset(s, i) == base + i * DescSize(s) <==> i * DescSize(s) < TWO32
  {
    hide AlignTo, Pow2, IsLeastMultiple, U32;
    BlockSizeValue(s);
    AlignToExact(BOOT_SECTOR + SUPER_BYTES, s.logBlockSize + 10);
    base := AlignTo(BOOT_SECTOR + SUPER_BYTES, BlockSize(s));
    U32Wraps(i * DescSize(s));
  }

  /** `super_group_fill`: reads one descriptor per group, advancing by the
      on-disk size; the result is the column of inode table blocks. */
  method GroupFill(disk: Image, s: SuperBlock) returns (r: Outcome<seq<nat>>)
    requires ValidSuper(s)
    ensures 1 <= BlockSize(s)
    ensures r.Ok? <==> forall i :: 0 <= i < NumGroups(s) ==> DescOffset(s, i) + DescSize(s) <= |disk|
    ensures r.Ok? ==>
              && |r.value| == NumGroups(s)
              && forall i :: 0 <= i < NumGroups(s) ==>
                   DescOffset(s, i) + 12 <= |disk| && r.value[i] == LE32(disk, DescOffset(s, i) + 8)
  {
    hide Pow2, AlignTo;
    BlockSizeValue(s);
    var tables := [];
    var i := 0;
    while i < NumGroups(s)
      invariant 0 <= i <= NumGroups(s) && |tables| == i
      invariant forall j :: 0 <= j < i ==>
                  DescOffset(s, j) + DescSize(s) <= |disk| && tables[j] == LE32(disk, DescOffset(s, j) + 8)
    {
      var desc := DiskRead(disk, DescOffset(s, i), DescSize(s));
      if desc.Abort? {
        return Abort;
      }
      tables := tables + [LE32(desc.value, 8)];
      i := i + 1;
    }
    r := Ok(tables);
  }

  // ---- Inode placement ----

  /** `super_group_inode_table_offset` for a zero-based inode number. */
  function TableOffset(v: Volume, n: nat): Outcome<nat>
    requires v.super.blocksPerGroup > 0 && v.super.inodesPerGroup > 0
    requires |v.tables| == NumGroups(v.super)
  {
    var group := n / v.super.inodesPerGroup;
    if group >= NumGroups(v.super) then Abort
    else Ok(BlocksToBytes(v.tables[group], BlockSize(v.super)))
  }

  /** Byte position of a slot within its table. */
  function SlotStart(slot: nat, size: nat): nat { slot * size }

  /** Where `inode_get_by_number` reads inode `ino` >= 1. */
  function InodeOffset(v: Volume, ino: nat): Outcome<nat>
    requires ino >= 1 && v.super.blocksPerGroup > 0 && v.super.inodesPerGroup > 0
    requires |v.tables| == NumGroups(v.super)
  {
    var table :- TableOffset(v, ino - 1);
    Ok(table + U32(SlotStart((ino - 1) % v.super.inodesPerGroup, v.super.inodeSize)))
  }

  function ReadLength(s: SuperBlock): nat { Min(s.inodeSize, INODE_STRUCT) }

  function TableBytes(s: SuperBlock): nat { s.inodesPerGroup * s.inodeSize }

  /** The inode tables of different groups do not overlap. */
  ghost predicate ValidVolume(v: Volume) {
    && ValidSuper(v.super)
    && |v.tables| == NumGroups(v.super)
    && (forall g, h :: 0 <= g < h < |v.tables| ==>
          Apart(BlocksToBytes(v.tables[g], BlockSize(v.super)),
                BlocksToBytes(v.tables[h], BlockSize(v.super)), TableBytes(v.super)))
    && (forall g :: 0 <= g < |v.tables| ==>
          BlocksToBytes(v.tables[g], BlockSize(v.super)) + TableBytes(v.super) <= |v.disk|)
  }

  predicate Apart(a: nat, b: nat, size: nat) { a + size <= b || b + size <= a }

  /** Inode `ino` has its own slot in its group's table, which lies on the
      disk; it is looked for there if and only if the 32-bit product of slot
      and inode size does not wrap, and otherwise before it in the table. */
  lemma {:induction false} InodeSlot(v: Volume, ino: nat) returns (group: nat, slot: nat)
    requires ValidVolume(v) && 1 <= ino <= NumGroups(v.super) * v.super.inodesPerGroup
    ensures group < |v.tables| && slot < v.super.inodesPerGroup
    ensures ino - 1 == group * v.super.inodesPerGroup + slot
    ensures var table := BlocksToBytes(v.tables[group], BlockSize(v.super));
            && InodeOffset(v, ino) == Ok(table + U32(SlotStart(slot, v.super.inodeSize)))
            && (InodeOffset(v, ino) == Ok(table + SlotStart(slot, v.super.inodeSize))
                <==> SlotStart(slot, v.super.inodeSize) < TWO32)
            && U32(SlotStart(slot, v.super.inodeSize)) <= SlotStart(slot, v.super.inodeSize)
            && SlotStart(slot, v.super.inodeSize) + v.super.inodeSize <= TableBytes(v.super)
            && table + TableBytes(v.super) <= |v.disk|
  {
    hide NumGroups, BlockSize, BlocksToBytes, U32, SlotStart;
    var per := v.super.inodesPerGroup;
    group, slot := GroupAndSlot(ino - 1, NumGroups(v.super), per);
    SlotInTable(slot, per, v.super.inodeSize);
    U32Wraps(SlotStart(slot, v.super.inodeSize));
  }

  lemma {:induction false} GroupAndSlot(n: nat, groups: nat, per: nat) returns (group: nat, slot: nat)
    requires per > 0 && n < groups * per
    ensures group == n / per < groups && slot == n % per < per && n == group * per + slot
  {
    group, slot := n / per, n % per;
    DivBelow(n, groups, per);
  }

  lemma {:induction false} SlotInTable(slot: nat, per: nat, size: nat)
    requires slot < per
    ensures SlotStart(slot, size) + size <= per * size
  {
    MulMonotone(slot + 1, per, size);
    assert (slot + 1) * size == slot * size + size;
  }

  /** The last slot of a table starts below 2^32. */
  predicate SlotsReachable(s: SuperBlock)
    requires s.inodesPerGroup > 0
  {
    SlotStart(s.inodesPerGroup - 1, s.inodeSize) < TWO32
  }

  predicate InodeRange(v: Volume, i: nat) {
    ValidSuper(v.super) && |v.tables| == NumGroups(v.super) && 1 <= i <= NumGroups(v.super) * v.super.inodesPerGroup
  }

  /** The bytes read for the two inodes do not overlap. */
  predicate ReadApart(v: Volume, i: nat, j: nat)
    requires InodeRange(v, i) && InodeRange(v, j)
  {
    var a, b := InodeOffset(v, i), InodeOffset(v, j);
    a.Ok? && b.Ok? && Apart(a.value, b.value, ReadLength(v.super))
  }

  /** The ranges read for distinct inodes do not overlap. */
  lemma {:induction false} PlacementInjective(v: Volume, i: nat, j: nat)
    requires ValidVolume(v) && SlotsReachable(v.super) && InodeRange(v, i) && InodeRange(v, j) && i < j
    ensures ReadApart(v, i, j)
    ensures InodeOffset(v, i).value + ReadLength(v.super) <= |v.disk|
  {
    hide NumGroups, BlockSize, BlocksToBytes, InodeOffset, TableBytes, ValidVolume, SlotStart, U32;
    var gi, si := InodeSlot(v, i);
    var gj, sj := InodeSlot(v, j);
    var size := v.super.inodeSize;
    SlotsBelow(si, v.super.inodesPerGroup, size);
    SlotsBelow(sj, v.super.inodesPerGroup, size);
    if gi == gj {
      SlotsApart(si, sj, size);
    } else {
      TablesApart(v, gi, gj);
    }
  }

  lemma {:induction false} SlotsBelow(slot: nat, per: nat, size: nat)
    requires slot < per
    ensures SlotStart(slot, size) <= SlotStart(per - 1, size)
  {
    MulMonotone(slot, per - 1, size);
  }

  /** For inode sizes that are powers of two, all reads are apart if and only
      if every slot can be reached: otherwise the slot at 2^32 is read from the
      start of the table, as the first inode is. */
  lemma {:induction false} PlacementExact(v: Volume, k: nat)
    requires ValidVolume(v) && v.super.inodeSize == Pow2(k)
    ensures (forall i, j :: InodeRange(v, i) && InodeRange(v, j) && i < j ==> ReadApart(v, i, j))
            <==> SlotsReachable(v.super)
  {
    hide ReadApart, InodeOffset, SlotStart, TableBytes;
    if SlotsReachable(v.super) {
      forall i, j | InodeRange(v, i) && InodeRange(v, j) && i < j ensures ReadApart(v, i, j) {
        PlacementInjective(v, i, j);
      }
    } else {
      var j := SlotPastReach(v, k);
    }
  }

  /** The inode whose slot starts at 2^32. */
  lemma {:induction false} SlotPastReach(v: Volume, k: nat) returns (j: nat)
    requires ValidVolume(v) && v.super.inodeSize == Pow2(k) && !SlotsReachable(v.super)
    ensures j > 1 && InodeRange(v, 1) && InodeRange(v, j) && !ReadApart(v, 1, j)
  {
    hide NumGroups, BlockSize, BlocksToBytes, TableBytes, U32, SlotStart, InodeOffset, Pow2;
    var n := FirstWrap(v.super.inodesPerGroup, k);
    j := n + 1;
    InGroupZero(v, 1);
    InGroupZero(v, j);
  }

  /** The slot that starts at 2^32, where the offset wraps to 0. */
  lemma {:induction false} FirstWrap(per: nat, k: nat) returns (n: nat)
    requires per > 0 && Pow2(k) < 0x1_0000 && SlotStart(per - 1, Pow2(k)) >= TWO32
    ensures 0 < n < per && U32(SlotStart(n, Pow2(k))) == 0 == U32(SlotStart(0, Pow2(k)))
  {
    hide Pow2;
    SizeBits(k);
    n := Pow2(32 - k);
    PowerSplit(k);
    if per - 1 < n {
      BelowProduct(per - 1, n, Pow2(k));
    }
    assert SlotStart(n, Pow2(k)) == TWO32 && SlotStart(0, Pow2(k)) == 0;
  }

  lemma {:induction false} BelowProduct(a: nat, n: nat, size: nat)
    requires a < n && size >= 1
    ensures a * size < n * size
  {
    MulMonotone(a + 1, n, size);
    assert (a + 1) * size == a * size + size;
  }

  lemma {:induction false} SizeBits(k: nat)
    requires Pow2(k) < 0x1_0000
    ensures k < 16
  {
    hide Pow2;
    if k >= 16 {
      Pow2Grows(16, k);
      Pow2Sixteen();
    }
  }

  lemma {:induction false} Pow2Sixteen()
    ensures Pow2(16) == 0x1_0000
  {
    assert Pow2(8) == 0x100;
  }

  lemma {:induction false} PowerSplit(k: nat)
    requires k <= 32
    ensures Pow2(32 - k) * Pow2(k) == TWO32
  {
    Pow2Thirty2();
    Pow2Sum(32 - k, k);
  }

  /** The inodes of the first group. */
  lemma {:induction false} InGroupZero(v: Volume, i: nat)
    requires ValidVolume(v) && 1 <= i <= v.super.inodesPerGroup
    ensures InodeRange(v, i) && |v.tables| >= 1
    ensures InodeOffset(v, i)
            == Ok(BlocksToBytes(v.tables[0], BlockSize(v.super)) + U32(SlotStart(i - 1, v.super.inodeSize)))
  {
    hide NumGroups, BlockSize, BlocksToBytes, U32;
    MulMonotone(1, NumGroups(v.super), v.super.inodesPerGroup);
    ModUnique(i - 1, 0, v.super.inodesPerGroup, i - 1);
  }

  lemma {:induction false} TablesApart(v: Volume, g: nat, h: nat)
    requires ValidVolume(v) && g < |v.tables| && h < |v.tables| && g != h
    ensures Apart(BlocksToBytes(v.tables[g], BlockSize(v.super)),
                  BlocksToBytes(v.tables[h], BlockSize(v.super)), TableBytes(v.super))
  {
    hide BlocksToBytes, BlockSize, TableBytes;
  }

  lemma {:induction false} SlotsApart(a: nat, b: nat, size: nat)
    ensures a < b ==> SlotStart(a, size) + size <= SlotStart(b, size)
    ensures b < a ==> SlotStart(b, size) + size <= SlotStart(a, size)
  {
    if a < b {
      MulMonotone(a + 1, b, size);
      assert (a + 1) * size == a * size + size;
    } else if b < a {
      MulMonotone(b + 1, a, size);
      assert (b + 1) * size == b * size + size;
    }
  }

  // ---- Reading an inode ----

  /** The fields of a raw on-disk inode. */
  function ParseInode(raw: seq<Byte>): Inode
    requires |raw| >= 112
  {
    InodeData(LE16(raw, 0), LE32(raw, 4) + TWO32 * LE32(raw, 108),
              LE32(raw, 32) / EXTENTS_FL % 2 == 1, raw[40..100])
  }

  /** `inode_get_by_number`: no inode 0, otherwise the parsed table slot. */
  function GetInode(v: Volume, ino: nat): Outcome<Option<Inode>>
    requires ValidSuper(v.super) && |v.tables| == NumGroups(v.super)
  {
    if ino == 0 then Ok(None)
    else
      var at :- InodeOffset(v, ino);
      var raw :- DiskRead(v.disk, at, ReadLength(v.super));
      Ok(Some(ParseInode(raw)))
  }

  /** Inode 0 is no inode, and numbers past the last group abort. */
  lemma {:induction false} NoSuchInode(v: Volume, ino: nat)
    requires ValidSuper(v.super) && |v.tables| == NumGroups(v.super)
    ensures GetInode(v, 0) == Ok(None)
    ensures ino > NumGroups(v.super) * v.super.inodesPerGroup ==> GetInode(v, ino).Abort?
  {
    hide NumGroups, BlockSize, ParseInode, SlotStart, U32, DiskRead;
    var per, n := v.super.inodesPerGroup, NumGroups(v.super);
    if ino > n * per {
      QuotientAtLeast(ino - 1, n, per);
    }
  }

  lemma {:induction false} QuotientAtLeast(i: nat, n: nat, per: nat)
    requires per > 0 && i >= n * per
    ensures i / per >= n
  {
    var q := i / per;
    assert i < (q + 1) * per by { assert (q + 1) * per == q * per + per; }
    if q + 1 <= n {
      MulMonotone(q + 1, n, per);
    }
  }

  /** Every inode number of a valid volume can be read. */
  lemma {:induction false} GetInodeSucceeds(v: Volume, ino: nat)
    requires ValidVolume(v) && 1 <= ino <= NumGroups(v.super) * v.super.inodesPerGroup
    ensures GetInode(v, ino).Ok? && GetInode(v, ino).value.Some?
  {
    hide NumGroups, BlockSize, InodeOffset, ParseInode;
    var _, _ := InodeSlot(v, ino);
  }
}
