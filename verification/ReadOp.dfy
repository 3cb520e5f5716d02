/** `op_read` on a mounted volume: the loops of fuse/op_read.c over a caller's
    buffer, and the file contents they deliver. */
module ReadOp {
  import opened Machine
  import opened Disk
  import opened DiskIO
  import opened Extents
  import opened ExtentReader
  import opened BlockMap
  import opened FileRead
  import opened Super

  const ENOENT: int := 2

  function LookupOf(disk: Image, bs: nat, inode: Inode): Lookup
    requires IsBlockSize(bs) && Decodable(disk, bs, inode)
  {
    (l: nat) => DataPblock(disk, bs, inode, l)
  }

  function TableOf(disk: Image, bs: nat, inode: Inode): BlockTable
    requires Decodable(disk, bs, inode)
  {
    (l: nat) => Physical(disk, bs, inode, l)
  }

  /** `first_read` into the start of the buffer. A piece longer than the
      request would run over the destination. */
  method FirstReadInto(disk: Image, bs: nat, inode: Inode, buf: array<Byte>, size: nat, offset: nat)
    returns (r: Outcome<nat>)
    requires IsBlockSize(bs) && Decodable(disk, bs, inode) && size <= buf.Length && size < TWO31
    modifies buf
    ensures match FirstRead(disk, bs, LookupOf(disk, bs, inode), size, offset)
            case Abort => r.Abort?
            case Ok(s) =>
              if |s| <= size then r == Ok(|s|) && buf[..] == Overlay(old(buf[..]), 0, s) else r.Abort?
  {
    hide DataPblock, Decodable, AlignTo, U32, U64, BlocksToBytes, Overlay, DiskRead;
    var endBlock := U32(U64(offset + U64(size - 1)) / bs);
    var startBlock := U32(offset / bs);
    var blockOffset := offset % bs;
    OverlayNothing(buf[..], 0);
    U32Bound(offset / bs);
    if size == 0 || blockOffset == 0 {
      return Ok(0);
    }
    var run := GetDataPblock(disk, bs, inode, startBlock);
    if run.Abort? {
      return Abort;
    }
    var at := BlocksToBytes(run.value.pblock, bs) + blockOffset;
    if startBlock == endBlock {
      r := ReadInto(disk, at, size, buf, 0);
    } else {
      var toBlockEnd := U64(AlignTo(offset, bs) - offset);
      if U64(offset + toBlockEnd) % bs != 0 || toBlockEnd > size {
        return Abort;
      }
      r := ReadInto(disk, at, toBlockEnd, buf, 0);
    }
  }

  ghost function Prepend(done: seq<Byte>, r: Outcome<seq<Byte>>): Outcome<seq<Byte>> {
    if r.Abort? then Abort else Ok(done + r.value)
  }

  /** One iteration's transfer: a run through a read context, or `memset`. */
  method StepInto(disk: Image, bs: nat, run: Run, buf: array<Byte>, ret: nat, size: nat) returns (r: Outcome<nat>)
    requires bs >= 1 && ret < size <= buf.Length
    modifies buf
    ensures match ReadStep(disk, bs, run, size - ret)
            case Abort => r.Abort?
            case Ok(s) =>
              1 <= |s| <= size - ret && r == Ok(|s|) && buf[..] == Overlay(old(buf[..]), ret, s)
  {
    if run.pblock != 0 {
      var ctx := new DiskCtx(BlocksToBytes(run.pblock, bs), bs, run.len);
      r := ctx.Read(disk, size - ret, buf, ret);
    } else {
      var bytes := size - ret;
      if bytes > bs {
        bytes := bs;
      }
      Copy(buf, ret, seq(bytes, _ => 0));
      r := Ok(bytes);
    }
  }

  /** The main loop of `op_read` from byte `ret0` of the buffer on. */
  method ReadRuns(disk: Image, bs: nat, inode: Inode, buf: array<Byte>, size: nat, ret0: nat, l0: nat)
    returns (r: Outcome<nat>)
    requires IsBlockSize(bs) && Decodable(disk, bs, inode)
    requires ret0 <= size <= buf.Length && l0 < TWO32
    modifies buf
    ensures match ReadLoop(disk, bs, LookupOf(disk, bs, inode), size - ret0, l0)
            case Abort => r.Abort?
            case Ok(s) => r == Ok(size) && buf[..] == Overlay(old(buf[..]), ret0, s)
  {
    hide DataPblock, Decodable, ReadStep, ReadLoop, U32, Overlay;
    ghost var lookup := LookupOf(disk, bs, inode);
    ghost var goal := ReadLoop(disk, bs, lookup, size - ret0, l0);
    ghost var done: seq<Byte> := [];
    var ret: nat, l: nat := ret0, l0;
    assert goal.Ok? ==> [] + goal.value == goal.value;
    assert buf[..] == Overlay(buf[..], ret0, []) by { OverlayNothing(buf[..], ret0); }
    while size > ret
      invariant ret0 <= ret <= size && l < TWO32
      invariant |done| == ret - ret0 && buf[..] == Overlay(old(buf[..]), ret0, done)
      invariant goal == Prepend(done, ReadLoop(disk, bs, lookup, size - ret, l))
    {
      var run := GetDataPblock(disk, bs, inode, l);
      assert lookup(l) == run;
      LoopStops(disk, bs, lookup, size - ret, l);
      if run.Abort? {
        return Abort;
      }
      ghost var step := ReadStep(disk, bs, run.value, size - ret);
      var bytes := StepInto(disk, bs, run.value, buf, ret, size);
      if bytes.Abort? {
        return Abort;
      }
      LoopStep(disk, bs, lookup, size - ret, l, run.value, step.value, done);
      OverlayTwice(old(buf[..]), ret0, done, step.value);
      done := done + step.value;
      ret := ret + bytes.value;
      U32Bound(l + run.value.len);
      l := U32(l + run.value.len);
    }
    LoopStops(disk, bs, lookup, 0, l);
    assert done + [] == done;
    r := Ok(ret);
  }

  lemma {:induction false} OverlayNothing(p: seq<Byte>, at: nat)
    requires at <= |p|
    ensures Overlay(p, at, []) == p
  {
  }

  /** When the loop ends, or fails. */
  lemma {:induction false} LoopStops(disk: Image, bs: nat, lookup: Lookup, left: nat, l: nat)
    requires bs >= 1
    ensures left == 0 ==> ReadLoop(disk, bs, lookup, left, l) == Ok([])
    ensures left > 0 && lookup(l).Abort? ==> ReadLoop(disk, bs, lookup, left, l).Abort?
    ensures left > 0 && lookup(l).Ok? && ReadStep(disk, bs, lookup(l).value, left).Abort? ==>
              ReadLoop(disk, bs, lookup, left, l).Abort?
  {
    hide ReadStep, U32;
  }

  lemma {:induction false} LoopStep(disk: Image, bs: nat, lookup: Lookup, left: nat, l: nat, run: Run, s: seq<Byte>, done: seq<Byte>)
    requires bs >= 1 && left > 0 && lookup(l) == Ok(run)
    requires ReadStep(disk, bs, run, left) == Ok(s) && 1 <= |s| <= left
    ensures Prepend(done, ReadLoop(disk, bs, lookup, left, l))
            == Prepend(done + s, ReadLoop(disk, bs, lookup, left - |s|, U32(l + run.len)))
  {
    hide ReadStep, U32;
    var rest := ReadLoop(disk, bs, lookup, left - |s|, U32(l + run.len));
    if rest.Ok? {
      assert done + (s + rest.value) == (done + s) + rest.value;
    }
  }

  lemma {:induction false} TruncateAtMost(fileSize: nat, size: nat, offset: nat)
    requires fileSize < TWO64 && size < TWO31
    ensures TruncateSize(fileSize, size, offset) <= size
  {
  }

  /** `op_read` once the inode is there. */
  method ReadFile(disk: Image, bs: nat, inode: Inode, buf: array<Byte>, size: nat, offset: nat) returns (r: Outcome<nat>)
    requires IsBlockSize(bs) && Decodable(disk, bs, inode) && size <= buf.Length && size < TWO31
    modifies buf
    ensures match ReadBytes(disk, bs, LookupOf(disk, bs, inode), inode.size, size, offset)
            case Abort => r.Abort?
            case Ok(s) => |s| <= size && r == Ok(|s|) && buf[..] == Overlay(old(buf[..]), 0, s)
  {
    hide DataPblock, FirstRead, Decodable, TruncateSize, ReadLoop, LookupOf, U32;
    var n := TruncateSize(inode.size, size, offset);
    TruncateAtMost(inode.size, size, offset);
    ghost var lookup := LookupOf(disk, bs, inode);
    var head := FirstReadInto(disk, bs, inode, buf, n, offset);
    if head.Abort? {
      return Abort;
    }
    ghost var first := FirstRead(disk, bs, lookup, n, offset).value;
    var ret := head.value;
    var next := U32((offset + ret) / bs);
    assert next < TWO32 by { U32Bound((offset + ret) / bs); }
    r := ReadRuns(disk, bs, inode, buf, n, ret, next);
    if r.Ok? {
      OverlayTwice(old(buf[..]), 0, first, ReadLoop(disk, bs, lookup, n - ret, next).value);
    }
  }

  lemma {:induction false} U32Bound(n: int)
    ensures U32(n) < TWO32
  {
  }

  /** The inode `ino` names, if it exists, has a readable extent root. */
  ghost predicate Usable(v: Volume, ino: nat) {
    && ValidSuper(v.super) && |v.tables| == NumGroups(v.super)
    && var i := GetInode(v, ino);
       i.Ok? && i.value.Some? ==> Decodable(v.disk, BlockSize(v.super), i.value.value)
  }

  /** `op_read`: -ENOENT for inode 0; otherwise the bytes of `ReadBytes` at
      the front of the buffer, the rest of it untouched, and their number. */
  method OpRead(v: Volume, ino: nat, buf: array<Byte>, size: nat, offset: nat) returns (r: Outcome<int>)
    requires Usable(v, ino) && size <= buf.Length && size < TWO31
    modifies buf
    ensures IsBlockSize(BlockSize(v.super))
    ensures ino == 0 ==> r == Ok(-2)
    ensures match GetInode(v, ino)
            case Abort => r.Abort?
            case Ok(None) => r == Ok(-2) && buf[..] == old(buf[..])
            case Ok(Some(inode)) =>
              var bs := BlockSize(v.super);
              match ReadBytes(v.disk, bs, LookupOf(v.disk, bs, inode), inode.size, size, offset)
              case Abort => r.Abort?
              case Ok(s) => |s| <= size && r == Ok(|s|) && buf[..] == Overlay(old(buf[..]), 0, s)
  {
    BlockSizeValue(v.super);
    var got := GetInode(v, ino);
    if got.Abort? {
      return Abort;
    }
    if got.value.None? {
      return Ok(-ENOENT);
    }
    hide BlockSize, GetInode, ReadBytes, Decodable, ValidSuper, NumGroups, LookupOf;
    var n := ReadFile(v.disk, BlockSize(v.super), got.value.value, buf, size, offset);
    if n.Abort? {
      return Abort;
    }
    r := Ok(n.value);
  }

  // ---- Main results ----

  /** The blocks under [from, to) are looked up correctly and lie on the disk. */
  ghost predicate RangeMapped(disk: Image, bs: nat, inode: Inode, from: nat, to: nat)
    requires IsBlockSize(bs) && Decodable(disk, bs, inode)
  {
    forall l :: from / bs <= l && BlocksToBytes(l, bs) < to ==>
      Mapped(disk, bs, inode, l) && OnDisk(disk, bs, Physical(disk, bs, inode, l))
  }

  lemma {:induction false} MappedIsReadable(disk: Image, bs: nat, inode: Inode, from: nat, to: nat)
    requires ValidMap(disk, bs, inode) && to <= BlocksToBytes(TWO32 - 1, bs)
    requires RangeMapped(disk, bs, inode, from, to)
    ensures Readable(disk, bs, LookupOf(disk, bs, inode), TableOf(disk, bs, inode), from, to)
  {
    hide DataPblock, Physical, Mapped, ValidTree, Decodable;
    var lookup, table := LookupOf(disk, bs, inode), TableOf(disk, bs, inode);
    forall l: nat | from / bs <= l && BlocksToBytes(l, bs) < to
      ensures Faithful(lookup, table, l) && OnDisk(disk, bs, table(l))
    {
      BlocksGrow(TWO32 - 1, l, bs);
      FaithfulAt(disk, bs, inode, l);
    }
  }

  lemma {:induction false} FaithfulAt(disk: Image, bs: nat, inode: Inode, l: nat)
    requires ValidMap(disk, bs, inode) && l < TWO32 - 1 && Mapped(disk, bs, inode, l)
    ensures Faithful(LookupOf(disk, bs, inode), TableOf(disk, bs, inode), l)
    ensures TableOf(disk, bs, inode)(l) == Physical(disk, bs, inode, l)
  {
    hide DataPblock, Physical, Mapped, Decodable;
    DataPblockSound(disk, bs, inode, l);
    var lookup, table := LookupOf(disk, bs, inode), TableOf(disk, bs, inode);
    var r := DataPblock(disk, bs, inode, l).value;
    assert lookup(l) == Ok(r) && table(l) == Physical(disk, bs, inode, l);
    forall m: nat | l <= m < l + r.len ensures r.pblock != 0 ==> table(m) == r.pblock + (m - l) {
      assert table(m) == Physical(disk, bs, inode, m);
    }
  }

  /** Reading a file, whichever way its blocks are mapped: for every offset
      and size, `op_read` delivers exactly the file's bytes in [offset,
      min(offset + size, file size)) iff the first piece is safe. */
  lemma {:induction false} FileReadExact(disk: Image, k: nat, inode: Inode, size: nat, offset: nat)
    requires k < 32 && size < TWO31 && ValidMap(disk, Pow2(k), inode)
    requires inode.size <= BlocksToBytes(TWO32 - 1, Pow2(k))
    requires RangeMapped(disk, Pow2(k), inode, offset, Min(offset + size, inode.size))
    ensures var bs, to := Pow2(k), Min(offset + size, inode.size);
            var r := ReadBytes(disk, bs, LookupOf(disk, bs, inode), inode.size, size, offset);
            if to <= offset then r == Ok([])
            else r == Ok(FileBytes(disk, bs, TableOf(disk, bs, inode), offset, to))
                 <==> HeadSafe(disk, bs, TableOf(disk, bs, inode), offset, to)
  {
    hide ReadBytes, FileBytes, HeadSafe, Readable, Pow2, LookupOf, TableOf, RangeMapped, Decodable;
    var to := Min(offset + size, inode.size);
    MappedIsReadable(disk, Pow2(k), inode, offset, to);
    ReadExact(disk, k, LookupOf(disk, Pow2(k), inode), TableOf(disk, Pow2(k), inode), inode.size, size, offset);
  }

  /** An extent root without entries, as `truncate` on a new file leaves it. */
  predicate EmptyRoot(inode: Inode) {
    inode.extents && WellHeaded(inode.iblock) && Depth(inode.iblock) == 0 && Entries(inode.iblock) == 0
  }

  lemma {:induction false} EmptyRootTree(disk: Image, bs: nat, inode: Inode)
    requires EmptyRoot(inode)
    ensures inode.extents && Decodable(disk, bs, inode) && TreeOf(disk, bs, inode) == Leaf([])
  {
  }

  lemma {:induction false} EmptyRootMap(disk: Image, bs: nat, inode: Inode, l: nat)
    requires EmptyRoot(inode) && IsBlockSize(bs)
    ensures ValidMap(disk, bs, inode)
    ensures Mapped(disk, bs, inode, l) && Physical(disk, bs, inode, l) == 0
  {
    hide Decode, Decodable, TreeOf, EmptyRoot, Slots, PointerLookup, ZeroOnPath, Width, BlocksFor;
    EmptyRootTree(disk, bs, inode);
  }

  lemma {:induction false} Zeros(disk: Image, bs: nat, table: BlockTable, from: nat, to: nat)
    requires bs >= 1 && from <= to && forall l: nat :: table(l) == 0
    ensures FileBytes(disk, bs, table, from, to) == seq(to - from, _ => 0)
  {
  }

  /** A fully sparse file reads as zeros, iff the first piece is safe. */
  lemma {:induction false} FullySparseRead(disk: Image, k: nat, inode: Inode, size: nat, offset: nat)
    requires 2 <= k < 32 && 0 < size < TWO31 && EmptyRoot(inode)
    requires offset < inode.size <= BlocksToBytes(TWO32 - 1, Pow2(k))
    ensures IsBlockSize(Pow2(k)) && Decodable(disk, Pow2(k), inode)
    ensures var bs, to := Pow2(k), Min(offset + size, inode.size);
            ReadBytes(disk, bs, LookupOf(disk, bs, inode), inode.size, size, offset)
            == Ok(seq(to - offset, _ => 0))
            <==> HeadSafe(disk, bs, TableOf(disk, bs, inode), offset, to)
  {
    hide ReadBytes, FileBytes, HeadSafe, Pow2, LookupOf, EmptyRoot, Decodable, Mapped, Physical;
    var bs, to := Pow2(k), Min(offset + size, inode.size);
    BlockSizes(k);
    EmptyRootMap(disk, bs, inode, 0);
    forall l: nat ensures Mapped(disk, bs, inode, l) && Physical(disk, bs, inode, l) == 0 {
      EmptyRootMap(disk, bs, inode, l);
    }
    FileReadExact(disk, k, inode, size, offset);
    Zeros(disk, bs, TableOf(disk, bs, inode), offset, to);
  }

  lemma {:induction false} BlockSizes(k: nat)
    requires 2 <= k < 32
    ensures IsBlockSize(Pow2(k))
  {
    hide Pow2;
    Pow2Step(k);
    Pow2Step(k - 1);
    Pow2Grows(k, 31);
    Pow2Thirty2();
    Pow2Step(32);
  }

  // ---- Reading over holes that are not seen ----

  /** The block the code reads for each block of the file. */
  function StandIn(disk: Image, bs: nat, inode: Inode): BlockTable
    requires IsBlockSize(bs) && Decodable(disk, bs, inode)
  {
    (l: nat) =>
      var r := DataPblock(disk, bs, inode, l);
      if r.Ok? then r.value.pblock else 0
  }

  /** A leaf is selected for `l`, and what is read there is on the disk. */
  ghost predicate Steady(disk: Image, bs: nat, inode: Inode, l: nat)
    requires IsBlockSize(bs) && Decodable(disk, bs, inode) && inode.extents
  {
    var leaf := SelectLeaf(TreeOf(disk, bs, inode), l);
    leaf.Some? && ShiftOk(leaf.value, l) && OnDisk(disk, bs, StandIn(disk, bs, inode)(l))
  }

  /** `l` is a hole in front of a later extent of its leaf. */
  predicate UnseenHole(disk: Image, bs: nat, inode: Inode, l: nat)
    requires Decodable(disk, bs, inode) && inode.extents
  {
    var leaf := SelectLeaf(TreeOf(disk, bs, inode), l);
    leaf.Some? && HoleInLeaf(leaf.value, l)
  }

  lemma {:induction false} StandInFaithful(disk: Image, bs: nat, inode: Inode, l: nat)
    requires ValidMap(disk, bs, inode) && inode.extents && l < TWO32 - 1 && Steady(disk, bs, inode, l)
    ensures Faithful(LookupOf(disk, bs, inode), StandIn(disk, bs, inode), l)
  {
    hide TreeLookup, SelectLeaf, ShiftOk, HoleInLeaf, Decodable, TreeOf, ValidTree, OnDisk;
    var t := TreeOf(disk, bs, inode);
    TreeStandIn(t, l, TWO32 - 1);
    var lookup, table := LookupOf(disk, bs, inode), StandIn(disk, bs, inode);
    var r := TreeLookup(t, l, 1).value;
    forall m: nat | l <= m < l + r.len ensures table(m) == r.pblock + (m - l) {
      assert DataPblock(disk, bs, inode, m) == TreeLookup(t, m, 1);
    }
    assert lookup(l) == Ok(r) && table(l) == r.pblock;
  }

  /** The code reads the file's own block, save for an unseen hole, where it
      reads some block instead of none. */
  lemma {:induction false} StandInValue(disk: Image, bs: nat, inode: Inode, l: nat)
    requires ValidMap(disk, bs, inode) && inode.extents && l < TWO32 - 1 && Steady(disk, bs, inode, l)
    ensures var p, q := StandIn(disk, bs, inode)(l), TableOf(disk, bs, inode)(l);
            if UnseenHole(disk, bs, inode, l) then p != 0 && q == 0 else p == q
  {
    hide TreeLookup, SelectLeaf, ShiftOk, HoleInLeaf, Decodable, TreeOf, ValidTree, OnDisk, FlatRun, Flatten;
    var t := TreeOf(disk, bs, inode);
    TreeStandIn(t, l, TWO32 - 1);
    if UnseenHole(disk, bs, inode, l) {
      HoleIsFlatHole(t, l, TWO32 - 1);
    } else {
      ExtentsSound(t, l);
    }
  }

  /** What stands in for an unseen hole is blank, as far as it is read. */
  predicate HoleFilled(disk: Image, bs: nat, inode: Inode, l: nat, to: nat)
    requires IsBlockSize(bs) && Decodable(disk, bs, inode) && inode.extents && BlocksToBytes(l, bs) < to
  {
    UnseenHole(disk, bs, inode, l) ==>
      Blank(disk, BlocksToBytes(StandIn(disk, bs, inode)(l), bs), Min(bs, to - BlocksToBytes(l, bs)))
  }

  /** Reading from a block boundary over unseen holes: the stand-ins are
      delivered, so the result is right if and only if each of them is blank. */
  lemma {:induction false} SparseReadExact(disk: Image, k: nat, inode: Inode, size: nat, first: nat)
    requires k < 32 && 0 < size < TWO31 && inode.extents && ValidMap(disk, Pow2(k), inode)
    requires BlocksToBytes(first, Pow2(k)) < inode.size <= BlocksToBytes(TWO32 - 1, Pow2(k))
    requires var to := Min(BlocksToBytes(first, Pow2(k)) + size, inode.size);
             forall l :: first <= l && BlocksToBytes(l, Pow2(k)) < to ==> Steady(disk, Pow2(k), inode, l)
    ensures var bs, offset := Pow2(k), BlocksToBytes(first, Pow2(k));
            var to := Min(offset + size, inode.size);
            var r := ReadBytes(disk, bs, LookupOf(disk, bs, inode), inode.size, size, offset);
            && r == Ok(FileBytes(disk, bs, StandIn(disk, bs, inode), offset, to))
            && (r == Ok(FileBytes(disk, bs, TableOf(disk, bs, inode), offset, to))
                <==> forall l :: first <= l && BlocksToBytes(l, bs) < to ==> HoleFilled(disk, bs, inode, l, to))
  {
    hide ReadBytes, FileBytes, Pow2, LookupOf, Decodable, BlocksToBytes, UnseenHole, StandIn, TableOf, Faithful, Steady,
         ValidTree, SameOrBlank, HoleFilled, OnDisk;
    var bs, offset := Pow2(k), BlocksToBytes(first, Pow2(k));
    var to := Min(offset + size, inode.size);
    var lookup, stand, table := LookupOf(disk, bs, inode), StandIn(disk, bs, inode), TableOf(disk, bs, inode);
    BlockStart(first, bs);
    forall l: nat | first <= l && BlocksToBytes(l, bs) < to
      ensures Faithful(lookup, stand, l) && OnDisk(disk, bs, stand(l))
      ensures stand(l) == table(l) || (table(l) == 0 && stand(l) != 0)
      ensures SameOrBlank(disk, bs, stand, table, l, to) <==> HoleFilled(disk, bs, inode, l, to)
    {
      BlocksGrow(TWO32 - 1, l, bs);
      SparseBlock(disk, bs, inode, l, to);
    }
    ReadExact(disk, k, lookup, stand, inode.size, size, offset);
    AlignedHead(disk, bs, stand, first, to);
    TablesAgree(disk, bs, stand, table, first, to);
  }

  lemma {:induction false} AlignedHead(disk: Image, bs: nat, table: BlockTable, first: nat, to: nat)
    requires bs >= 1 && BlocksToBytes(first, bs) < to
    ensures HeadSafe(disk, bs, table, BlocksToBytes(first, bs), to)
  {
    hide BlocksToBytes;
    BlockStart(first, bs);
  }

  lemma {:induction false} SparseBlock(disk: Image, bs: nat, inode: Inode, l: nat, to: nat)
    requires ValidMap(disk, bs, inode) && inode.extents && l < TWO32 - 1
    requires BlocksToBytes(l, bs) < to && Steady(disk, bs, inode, l)
    ensures var lookup, stand, table := LookupOf(disk, bs, inode), StandIn(disk, bs, inode), TableOf(disk, bs, inode);
            && Faithful(lookup, stand, l) && OnDisk(disk, bs, stand(l))
            && (stand(l) == table(l) || (table(l) == 0 && stand(l) != 0))
            && (SameOrBlank(disk, bs, stand, table, l, to) <==> HoleFilled(disk, bs, inode, l, to))
  {
    hide LookupOf, Decodable, BlocksToBytes, UnseenHole, StandIn, TableOf, Faithful, OnDisk;
    StandInFaithful(disk, bs, inode, l);
    StandInValue(disk, bs, inode, l);
  }

  // ---- Failing inputs ----

  /** The inode's block field with one extent: logical block 1 at block 5. */
  const SPARSE_ROOT: seq<Byte> :=
    [0x0a, 0xf3, 1, 0, 4, 0, 0, 0, 0, 0, 0, 0, 1, 0, 0, 0, 1, 0, 0, 0, 5, 0, 0, 0] + seq(36, _ => 0)

  lemma {:induction false} SparseRootTree(disk: Image, bs: nat, inode: Inode)
    requires IsBlockSize(bs) && inode.extents && inode.iblock == SPARSE_ROOT
    ensures ValidMap(disk, bs, inode) && TreeOf(disk, bs, inode) == Leaf([Extent(1, 1, 5)])
  {
    hide LE16, LE32, ExtentAt, ExtentHigh;
    var node := inode.iblock;
    SparseRootHeader(node);
    SparseRootEntry(node);
    assert LeafExtents(node) == [Extent(1, 1, 5)];
  }

  lemma {:induction false} SparseRootHeader(node: seq<Byte>)
    requires node == SPARSE_ROOT
    ensures WellHeaded(node) && Entries(node) == 1 && Depth(node) == 0
  {
  }

  lemma {:induction false} SparseRootEntry(node: seq<Byte>)
    requires node == SPARSE_ROOT && NodeFits(node) && Entries(node) == 1
    ensures ExtentHigh(node, 0) == 0 && ExtentAt(node, 0) == Extent(1, 1, 5)
  {
  }

  lemma {:induction false} SparseRootLookup(disk: Image, bs: nat, inode: Inode)
    requires IsBlockSize(bs) && inode.extents && inode.iblock == SPARSE_ROOT
    ensures Decodable(disk, bs, inode) && LookupOf(disk, bs, inode)(0) == Ok(Run(4, 2))
    ensures TableOf(disk, bs, inode)(0) == 0
  {
    hide Decode, Decodable, TreeOf;
    SparseRootTree(disk, bs, inode);
    var es := [Extent(1, 1, 5)];
    assert LeafLookup(es, 0, 1) == Run(4, 2);
    assert es[1..] == [] && FlatRun(es, 0) == Run(0, 1);
  }

  /** Block 0 of this file is a hole in front of an extent at block 1: reading
      it delivers, on every disk that holds the file, the block in front of the
      extent's own instead of zeros. */
  lemma {:induction false} SparseExtentMisread(disk: Image, bs: nat, inode: Inode)
    requires IsBlockSize(bs) && 1024 <= bs < TWO31 && |disk| >= 6 * bs
    requires inode.extents && inode.iblock == SPARSE_ROOT && inode.size == 2 * bs
    ensures ValidMap(disk, bs, inode)
    ensures ReadBytes(disk, bs, LookupOf(disk, bs, inode), 2 * bs, bs, 0) == Ok(disk[4 * bs..5 * bs])
    ensures FileBytes(disk, bs, TableOf(disk, bs, inode), 0, bs) == seq(bs, _ => 0)
  {
    hide Decodable, LookupOf, TableOf, Decode, TreeOf;
    SparseRootTree(disk, bs, inode);
    SparseRootLookup(disk, bs, inode);
    var lookup := LookupOf(disk, bs, inode);
    RunOnce(disk, bs, lookup, Run(4, 2));
    TruncateWithin(2 * bs, bs, 0);
    AlignedStart(disk, bs, lookup, 2 * bs, bs);
    HoleBytes(disk, bs, TableOf(disk, bs, inode), 0, bs, seq(bs, _ => 0));
  }

  /** One block from the start of a run. */
  lemma {:induction false} RunOnce(disk: Image, bs: nat, lookup: Lookup, run: Run)
    requires 1 <= bs < TWO31 && lookup(0) == Ok(run) && run.pblock > 0 && run.len > 0
    requires BlocksToBytes(run.pblock, bs) + bs <= |disk|
    ensures ReadLoop(disk, bs, lookup, bs, 0)
            == Ok(disk[BlocksToBytes(run.pblock, bs)..BlocksToBytes(run.pblock, bs) + bs])
  {
    hide BlocksToBytes, U32;
    BlocksGrow(1, run.len, bs);
    OneBlock(bs);
    var at := BlocksToBytes(run.pblock, bs);
    assert ReadStep(disk, bs, run, bs) == Ok(disk[at..at + bs]);
    assert ReadLoop(disk, bs, lookup, 0, U32(0 + run.len)) == Ok([]);
    assert disk[at..at + bs] + [] == disk[at..at + bs];
  }

  /** A read from offset 0 is the loop from block 0. */
  lemma {:induction false} AlignedStart(disk: Image, bs: nat, lookup: Lookup, fileSize: nat, size: nat)
    requires 1 <= bs < TWO32 && TruncateSize(fileSize, size, 0) == size
    ensures ReadBytes(disk, bs, lookup, fileSize, size, 0) == ReadLoop(disk, bs, lookup, size, 0)
  {
    hide ReadLoop, AlignTo, U64, TruncateSize, DiskRead;
    ModUnique(0, 0, bs, 0);
    assert FirstRead(disk, bs, lookup, size, 0) == Ok([]);
    U32Small(0);
    var tail := ReadLoop(disk, bs, lookup, size, 0);
    assert tail.Ok? ==> [] + tail.value == tail.value;
  }

  /** A fully sparse file read from inside its first block: the bytes of block
      0 of the disk are delivered in place of zeros. */
  lemma {:induction false} SparseHeadMisread(disk: Image, k: nat, inode: Inode, n: nat, b: nat)
    requires 10 <= k < 31 && EmptyRoot(inode) && 0 < b && 1 <= n && b + n <= Pow2(k) <= |disk|
    requires b + n <= inode.size <= BlocksToBytes(TWO32 - 1, Pow2(k))
    ensures IsBlockSize(Pow2(k)) && Decodable(disk, Pow2(k), inode)
    ensures ReadBytes(disk, Pow2(k), LookupOf(disk, Pow2(k), inode), inode.size, n, b) == Ok(disk[b..b + n])
  {
    hide LookupOf, Decodable, Pow2, FirstRead, TruncateSize, BlocksToBytes, U32;
    var bs := Pow2(k);
    BlockSizes(k);
    HalfRange(k);
    EmptyRootLookup(disk, bs, inode);
    var lookup := LookupOf(disk, bs, inode);
    BlockSizeBounds(k);
    FirstBlock(bs);
    TruncateWithin(inode.size, n, b);
    FirstReadValue(disk, k, lookup, 0, b, n);
    var next := U32((b + n) / bs);
    assert ReadLoop(disk, bs, lookup, 0, next) == Ok([]);
    assert disk[b..b + n] + [] == disk[b..b + n];
  }

  lemma {:induction false} HalfRange(k: nat)
    requires k < 31
    ensures Pow2(k) < TWO31
  {
    hide Pow2;
    Pow2Grows(k, 30);
    Pow2Thirty2();
    Pow2Step(32);
    Pow2Step(31);
  }

  lemma {:induction false} EmptyRootLookup(disk: Image, bs: nat, inode: Inode)
    requires EmptyRoot(inode) && IsBlockSize(bs)
    ensures Decodable(disk, bs, inode) && LookupOf(disk, bs, inode)(0) == Ok(Run(0, 1))
  {
    hide Decode, Decodable, TreeOf, EmptyRoot;
    EmptyRootTree(disk, bs, inode);
    assert LeafLookup([], 0, 1) == Run(0, 1);
  }

  /** A block in front of every entry of the root index is a hole, and looking
      it up aborts. */
  lemma {:induction false} EarlyBlockAborts(disk: Image, bs: nat, inode: Inode, l: nat)
    requires ValidMap(disk, bs, inode) && inode.extents && l < TWO32 - 1
    requires Depth(inode.iblock) > 0 && Entries(inode.iblock) > 0 && KeyAt(inode.iblock, 0) > l
    ensures DataPblock(disk, bs, inode, l).Abort? && Physical(disk, bs, inode, l) == 0
  {
    hide LE16, LE32, DecodeKids, Decode, KeyAt, FlatRun, Flatten, ValidTree;
    DecodeMeaning(disk, bs, inode.iblock);
    KidsMeaning(disk, bs, inode.iblock, 0, 0);
    var a, b := LeafBounds(TreeOf(disk, bs, inode), l, 0, TWO32 - 1);
  }
}
