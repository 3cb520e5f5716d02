/** The superblock, the group descriptors and the inodes as they lie on the
    disk (structs of fuse/types), and that the model reads them back. */
module SuperLayout {
  import opened Machine
  import opened Disk
  import opened Layout
  import opened BlockMap
  import opened Super

  // ---- struct ext4_inode ----

  datatype RawInode = RawInode(
    mode: nat, uid: nat, sizeLo: nat, atime: nat, ctime: nat, mtime: nat, dtime: nat,
    gid: nat, links: nat, blocksLo: nat, flags: nat, osd1: nat, iblock: seq<Byte>,
    generation: nat, fileAcl: nat, sizeHigh: nat, faddr: nat, osd2: seq<Byte>, extra: seq<Byte>)

  /** The members in declared order; `extra` stands for those from
      `i_extra_isize` on. */
  function InodeFields(i: RawInode): (fs: seq<Field>)
    ensures |fs| == 19
  {
    [F16(i.mode), F16(i.uid), F32(i.sizeLo), F32(i.atime), F32(i.ctime), F32(i.mtime), F32(i.dtime),
     F16(i.gid), F16(i.links), F32(i.blocksLo), F32(i.flags), F32(i.osd1), Raw(i.iblock),
     F32(i.generation), F32(i.fileAcl), F32(i.sizeHigh), F32(i.faddr), Raw(i.osd2), Raw(i.extra)]
  }

  predicate GoodInode(i: RawInode) {
    && |i.iblock| == 60 && |i.osd2| == 12 && |i.extra| == 28
    && forall k :: 0 <= k < |InodeFields(i)| ==> InRange(InodeFields(i)[k])
  }

  /** What the inode says, in terms of its members. */
  function Meaning(i: RawInode): Inode
    requires GoodInode(i)
  {
    assert InRange(InodeFields(i)[0]) && InRange(InodeFields(i)[2]) && InRange(InodeFields(i)[15]);
    InodeData(i.mode, i.sizeLo + 0x1_0000_0000 * i.sizeHigh, And(i.flags, 0x0008_0000) != 0, i.iblock)
  }

  lemma {:induction false} InodeFrontOffsets(i: RawInode)
    requires GoodInode(i)
    ensures var fs := InodeFields(i);
            Offset(fs, 0) == 0 && Offset(fs, 2) == 4 && Offset(fs, 10) == 32
  {
    hide Offset, Bytes;
    var fs := InodeFields(i);
    NoOffset(fs);
    OffsetStep(fs, 0);
    OffsetStep(fs, 1);
    OffsetStep(fs, 2);
    OffsetStep(fs, 3);
    OffsetStep(fs, 4);
    OffsetStep(fs, 5);
    OffsetStep(fs, 6);
    OffsetStep(fs, 7);
    OffsetStep(fs, 8);
    OffsetStep(fs, 9);
  }

  lemma {:induction false} NoOffset(fs: seq<Field>)
    ensures Offset(fs, 0) == 0
  {
  }

  lemma {:induction false} InodeOffsets(i: RawInode)
    requires GoodInode(i)
    ensures var fs := InodeFields(i);
            Offset(fs, 12) == 40 && Offset(fs, 15) == 108 && Offset(fs, 16) == 112 && Offset(fs, 19) == 156
  {
    hide Offset, Bytes;
    InodeFrontOffsets(i);
    var fs := InodeFields(i);
    OffsetStep(fs, 10);
    OffsetStep(fs, 11);
    OffsetStep(fs, 12);
    OffsetStep(fs, 13);
    OffsetStep(fs, 14);
    OffsetStep(fs, 15);
    OffsetStep(fs, 16);
    OffsetStep(fs, 17);
    OffsetStep(fs, 18);
  }

  /** Bit 19 of a word, two ways. */
  lemma {:induction false} ExtentsBit(n: nat)
    ensures And(n, 0x0008_0000) != 0 <==> n / 0x0008_0000 % 2 == 1
  {
    hide And;
    AndBits(n, 19, 20);
    Pow2Nineteen();
    BitNineteen(n);
  }

  lemma {:induction false} Pow2Nineteen()
    ensures Pow2(19) == 0x0008_0000 && Pow2(20) == 0x0010_0000
  {
    assert Pow2(8) == 0x100;
    assert Pow2(16) == 0x1_0000;
  }

  lemma {:induction false} BitNineteen(n: nat)
    ensures n % 0x0010_0000 - n % 0x0008_0000 == n / 0x0008_0000 % 2 * 0x0008_0000
  {
    var q, r := n / 0x0008_0000, n % 0x0008_0000;
    ModUnique(n, q / 2, 0x0010_0000, q % 2 * 0x0008_0000 + r);
  }

  lemma {:induction false} MembersUsed(i: RawInode)
    requires GoodInode(i)
    ensures var fs := InodeFields(i);
            && fs[0] == F16(i.mode) && fs[2] == F32(i.sizeLo) && fs[10] == F32(i.flags)
            && fs[12] == Raw(i.iblock) && fs[15] == F32(i.sizeHigh)
            && InRange(fs[0]) && InRange(fs[2]) && InRange(fs[10]) && InRange(fs[12]) && InRange(fs[15])
  {
  }

  lemma {:induction false} HoldsSlice(s: seq<Byte>, at: nat, part: seq<Byte>)
    requires Holds(s, at, part)
    ensures at + |part| <= |s| && s[at..at + |part|] == part
  {
  }

  /** Reading back the members of an inode. */
  lemma {:induction false} ParseWritten(raw: seq<Byte>, i: RawInode)
    requires GoodInode(i) && Holds(raw, 0, Struct(InodeFields(i), 16))
    ensures |raw| >= 112 && ParseInode(raw) == Meaning(i)
  {
    hide Struct, Offset, LE16, LE32, And, InRange, InodeFields, Holds;
    var fs := InodeFields(i);
    MembersUsed(i);
    InodeFrontOffsets(i);
    InodeOffsets(i);
    ReadMember(raw, 0, fs, 16, 0);
    ReadMember(raw, 0, fs, 16, 2);
    ReadMember(raw, 0, fs, 16, 10);
    ReadMember(raw, 0, fs, 16, 12);
    ReadMember(raw, 0, fs, 16, 15);
    HoldsSlice(raw, 40, i.iblock);
    ExtentsBit(i.flags);
  }

  /** Where slot `slot` of group `group` lies on the disk. */
  function SlotPlace(v: Volume, group: nat, slot: nat): nat
    requires group < |v.tables|
  {
    v.tables[group] * BlockSize(v.super) + slot * v.super.inodeSize
  }

  /** The number of the inode in that slot, counting from 1. */
  function NumberOf(v: Volume, group: nat, slot: nat): nat { group * v.super.inodesPerGroup + slot + 1 }

  /** As much of the struct as a slot holds. */
  function SlotContents(v: Volume, i: RawInode): seq<Byte>
    requires GoodInode(i)
  {
    InodeLength(i);
    if v.super.inodeSize < 156 then Write(InodeFields(i))[..v.super.inodeSize] else Write(InodeFields(i))
  }

  /** The inode written into a slot is the one that is found under its number. */
  lemma {:induction false} InodeStored(v: Volume, group: nat, slot: nat, i: RawInode)
    requires ValidSuper(v.super) && |v.tables| == NumGroups(v.super) && GoodInode(i)
    requires group < |v.tables| && slot < v.super.inodesPerGroup && SlotStart(slot, v.super.inodeSize) < TWO32
    requires Holds(v.disk, SlotPlace(v, group, slot), SlotContents(v, i))
    ensures GetInode(v, NumberOf(v, group, slot)) == Ok(Some(Meaning(i)))
  {
    hide NumGroups, BlockSize, U32, ParseInode, Holds, Struct, Meaning, GoodInode, InodeFields, SlotPlace, NumberOf, SlotStart, InodeOffset;
    var at, whole := SlotPlace(v, group, slot), SlotContents(v, i);
    InodeLength(i);
    SlotOffset(v, group, slot);
    SlotBytes(v.disk, at, whole);
    InodePrefix(i, |whole|);
    HoldsPrefix(whole, 0, whole, Struct(InodeFields(i), 16));
    ParseWritten(whole, i);
  }

  lemma {:induction false} SlotOffset(v: Volume, group: nat, slot: nat)
    requires ValidSuper(v.super) && |v.tables| == NumGroups(v.super)
    requires group < |v.tables| && slot < v.super.inodesPerGroup && SlotStart(slot, v.super.inodeSize) < TWO32
    ensures NumberOf(v, group, slot) >= 1
    ensures InodeOffset(v, NumberOf(v, group, slot)) == Ok(SlotPlace(v, group, slot))
  {
    hide NumGroups, BlockSize, U32;
    ModUnique(group * v.super.inodesPerGroup + slot, group, v.super.inodesPerGroup, slot);
    MulMonotone(0, group, v.super.inodesPerGroup);
    U32Small(SlotStart(slot, v.super.inodeSize));
  }

  lemma {:induction false} SlotBytes(disk: Image, at: nat, whole: seq<Byte>)
    requires Holds(disk, at, whole) && |whole| < TWO31
    ensures DiskRead(disk, at, |whole|) == Ok(whole)
    ensures Holds(whole, 0, whole)
  {
  }

  lemma {:induction false} InodePrefix(i: RawInode, len: nat)
    requires GoodInode(i) && |Write(InodeFields(i))| == 156 && 112 <= len <= 156
    ensures Struct(InodeFields(i), 16) <= Write(InodeFields(i))[..len]
  {
    hide Struct, Offset, GoodInode;
    var fs := InodeFields(i);
    InodeOffsets(i);
    StructLength(fs, 16);
    StructPrefix(fs, 16, 19);
  }

  lemma {:induction false} InodeLength(i: RawInode)
    requires GoodInode(i)
    ensures |Write(InodeFields(i))| == 156
  {
    hide Struct, Offset, GoodInode;
    InodeOffsets(i);
    StructLength(InodeFields(i), 19);
  }

  /** The pointers of an indexed file, in the inode's block field. */
  lemma {:induction false} PointersStored(inode: Inode, ptrs: seq<nat>, k: nat)
    requires |ptrs| == 15 && k < 15 && (forall j :: 0 <= j < 15 ==> ptrs[j] < TWO32)
    requires inode.iblock == Write(seq(15, j requires 0 <= j < 15 => F32(ptrs[j])))
    ensures Pointer(inode, k) == ptrs[k]
  {
    hide Struct, LE32;
    var fs := seq(15, j requires 0 <= j < 15 => F32(ptrs[j]));
    WordsOffset(fs, k);
    assert Holds(inode.iblock, 0, Struct(fs, 15));
    ReadMember(inode.iblock, 0, fs, 15, k);
  }

  lemma {:induction false} WordsOffset(fs: seq<Field>, k: nat)
    requires k <= |fs| && forall j :: 0 <= j < |fs| ==> fs[j].F32?
    ensures Offset(fs, k) == 4 * k
  {
    if k > 0 {
      WordsOffset(fs, k - 1);
    }
  }

  // ---- struct ext4_group_desc ----

  /** The members up to `bg_inode_table_lo`, and the rest. */
  function DescFields(blockBitmap: nat, inodeBitmap: nat, inodeTable: nat, rest: seq<Byte>): (fs: seq<Field>)
    ensures |fs| == 4
  {
    [F32(blockBitmap), F32(inodeBitmap), F32(inodeTable), Raw(rest)]
  }

  lemma {:induction false} LeastMultipleUnique(p: nat, q: nat, n: nat, align: nat)
    requires align >= 1 && IsLeastMultiple(p, n, align) && IsLeastMultiple(q, n, align)
    ensures p == q
  {
    if p <= q {
      ModUnique(q, p / align, align, q - p);
    } else {
      ModUnique(p, q / align, align, p - q);
    }
  }

  /** Descriptor `i` of a table of 32-byte descriptors, or of 64-byte ones where
      the superblock announces a descriptor size, is read where it lies, and its
      inode table block is the one found. */
  lemma {:induction false} DescriptorStored(disk: Image, s: SuperBlock, i: nat, start: nat,
                                            blockBitmap: nat, inodeBitmap: nat, inodeTable: nat, rest: seq<Byte>)
    requires ValidSuper(s) && BlockSize(s) >= 1 && IsLeastMultiple(start, 2048, BlockSize(s))
    requires i * (if s.descSize == 0 then 32 else 64) < TWO32 && inodeTable < TWO32
    requires Holds(disk, start + i * (if s.descSize == 0 then 32 else 64),
                   Write(DescFields(blockBitmap, inodeBitmap, inodeTable, rest)))
    ensures DescOffset(s, i) + 12 <= |disk| && LE32(disk, DescOffset(s, i) + 8) == inodeTable
  {
    hide AlignTo, BlockSize, LE32, Holds, Struct, IsLeastMultiple, U32;
    var fs := DescFields(blockBitmap, inodeBitmap, inodeTable, rest);
    var base := DescriptorPlace(s, i);
    LeastMultipleUnique(start, base, 2048, BlockSize(s));
    DescSizes(s);
    assert Offset(fs, 1) == 4 && Offset(fs, 2) == 8;
    ReadMember(disk, DescOffset(s, i), fs, 4, 2);
  }

  lemma {:induction false} DescSizes(s: SuperBlock)
    ensures DescSize(s) == if s.descSize == 0 then 32 else 64
  {
  }

  // ---- struct ext4_super_block ----

  datatype RawSuper = RawSuper(
    inodesCount: nat, blocksCount: nat, counts: seq<Byte>, logBlockSize: nat, logFragSize: nat, blocksPerGroup: nat,
    fragsPerGroup: nat, inodesPerGroup: nat, times: seq<Byte>, firstIno: nat, inodeSize: nat, middle: seq<Byte>,
    descSize: nat, rest: seq<Byte>)

  /** The members in declared order; runs of members that nothing reads are
      given as bytes. */
  function SuperFields(s: RawSuper): (fs: seq<Field>)
    ensures |fs| == 14
  {
    [F32(s.inodesCount), F32(s.blocksCount), Raw(s.counts), F32(s.logBlockSize), F32(s.logFragSize),
     F32(s.blocksPerGroup), F32(s.fragsPerGroup), F32(s.inodesPerGroup), Raw(s.times), F32(s.firstIno),
     F16(s.inodeSize), Raw(s.middle), F16(s.descSize), Raw(s.rest)]
  }

  predicate GoodRawSuper(s: RawSuper) {
    && |s.counts| == 16 && |s.times| == 40 && |s.middle| == 164 && |s.rest| == 768
    && forall k :: 0 <= k < |SuperFields(s)| ==> InRange(SuperFields(s)[k])
  }

  lemma {:induction false} SuperOffsets(s: RawSuper)
    requires GoodRawSuper(s)
    ensures var fs := SuperFields(s);
            && Offset(fs, 1) == 4 && Offset(fs, 3) == 24 && Offset(fs, 5) == 32 && Offset(fs, 7) == 40
            && Offset(fs, 10) == 88 && Offset(fs, 12) == 254 && Offset(fs, 14) == 1024
  {
    hide Offset, Bytes;
    var fs := SuperFields(s);
    NoOffset(fs);
    OffsetStep(fs, 0);
    OffsetStep(fs, 1);
    OffsetStep(fs, 2);
    OffsetStep(fs, 3);
    OffsetStep(fs, 4);
    OffsetStep(fs, 5);
    OffsetStep(fs, 6);
    OffsetStep(fs, 7);
    OffsetStep(fs, 8);
    OffsetStep(fs, 9);
    OffsetStep(fs, 10);
    OffsetStep(fs, 11);
    OffsetStep(fs, 12);
    OffsetStep(fs, 13);
  }

  lemma {:induction false} SuperMembers(s: RawSuper)
    requires GoodRawSuper(s)
    ensures var fs := SuperFields(s);
            && fs[1] == F32(s.blocksCount) && fs[3] == F32(s.logBlockSize) && fs[5] == F32(s.blocksPerGroup)
            && fs[7] == F32(s.inodesPerGroup) && fs[10] == F16(s.inodeSize) && fs[12] == F16(s.descSize)
            && InRange(fs[1]) && InRange(fs[3]) && InRange(fs[5]) && InRange(fs[7]) && InRange(fs[10]) && InRange(fs[12])
  {
  }

  /** The superblock that lies behind the first 1024 bytes is the one found. */
  lemma {:induction false} SuperStored(disk: Image, s: RawSuper)
    requires GoodRawSuper(s) && Holds(disk, 1024, Write(SuperFields(s)))
    ensures ReadSuper(disk) == Ok(SuperBlock(s.logBlockSize, s.blocksCount, s.blocksPerGroup,
                                             s.inodesPerGroup, s.inodeSize, s.descSize))
  {
    hide Struct, Offset, LE16, LE32, InRange, SuperFields, Holds, GoodRawSuper, DiskRead;
    var fs := SuperFields(s);
    SuperMembers(s);
    SuperOffsets(s);
    StructLength(fs, 14);
    var raw := Struct(fs, 14);
    SlotBytes(disk, 1024, raw);
    ReadMember(raw, 0, fs, 14, 1);
    ReadMember(raw, 0, fs, 14, 3);
    ReadMember(raw, 0, fs, 14, 5);
    ReadMember(raw, 0, fs, 14, 7);
    ReadMember(raw, 0, fs, 14, 10);
    ReadMember(raw, 0, fs, 14, 12);
  }
}
