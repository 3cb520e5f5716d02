/** `read(2)` on a regular file (fuse/op_read.c): truncation to the file size,
    an unaligned first piece, then one run of blocks per step. The block map
    appears only as a function from logical blocks to runs, so the results
    hold for extents and for index blocks alike. */
module FileRead {
  import opened Machine
  import opened Disk
  import opened Extents

  type Lookup = nat -> Outcome<Run>

  // ---- What the code computes ----

  /** `truncate_size`; the sum of offset and size is a 64-bit one. */
  function TruncateSize(fileSize: nat, size: nat, offset: nat): nat {
    if offset >= fileSize then 0
    else if U64(offset + size) >= fileSize then fileSize - offset
    else size
  }

  /** The bytes `first_read` copies: nothing if the offset is aligned, else
      the request or the rest of the first block, whichever ends first. */
  function FirstRead(disk: Image, bs: nat, lookup: Lookup, size: nat, offset: nat): Outcome<seq<Byte>>
    requires 1 <= bs < TWO32
  {
    var endBlock := U32(U64(offset + U64(size - 1)) / bs);
    var startBlock := U32(offset / bs);
    var blockOffset := offset % bs;
    if size == 0 || blockOffset == 0 then Ok([])
    else
      var run :- lookup(startBlock);
      if startBlock == endBlock then
        DiskRead(disk, BlocksToBytes(run.pblock, bs) + blockOffset, size)
      else
        var toBlockEnd := U64(AlignTo(offset, bs) - offset);
        if U64(offset + toBlockEnd) % bs != 0 then Abort
        else DiskRead(disk, BlocksToBytes(run.pblock, bs) + blockOffset, toBlockEnd)
  }

  /** One iteration of the main loop: as much of a run as is wanted, or one
      block of zeros. */
  function ReadStep(disk: Image, bs: nat, run: Run, left: nat): Outcome<seq<Byte>> {
    if run.pblock != 0 then
      if BlocksToBytes(run.len, bs) == 0 then Abort
      else DiskRead(disk, BlocksToBytes(run.pblock, bs), Min(left, BlocksToBytes(run.len, bs)))
    else Ok(seq(Min(left, bs), _ => 0))
  }

  /** The main loop with `left` bytes to go at block `l`. */
  function ReadLoop(disk: Image, bs: nat, lookup: Lookup, left: nat, l: nat): (r: Outcome<seq<Byte>>)
    requires bs >= 1
    ensures r.Ok? ==> |r.value| == left
    decreases left
  {
    if left == 0 then Ok([])
    else
      var run :- lookup(l);
      var chunk :- ReadStep(disk, bs, run, left);
      var rest :- ReadLoop(disk, bs, lookup, left - |chunk|, U32(l + run.len));
      Ok(chunk + rest)
  }

  /** The bytes `op_read` delivers. */
  function ReadBytes(disk: Image, bs: nat, lookup: Lookup, fileSize: nat, size: nat, offset: nat): Outcome<seq<Byte>>
    requires 1 <= bs < TWO32
  {
    var n := TruncateSize(fileSize, size, offset);
    var head :- FirstRead(disk, bs, lookup, n, offset);
    Assemble(disk, bs, lookup, n, offset, head)
  }

  /** What follows the first piece. */
  function Assemble(disk: Image, bs: nat, lookup: Lookup, n: nat, offset: nat, head: seq<Byte>): Outcome<seq<Byte>>
    requires bs >= 1
  {
    if n < |head| then Abort
    else
      var tail :- ReadLoop(disk, bs, lookup, n - |head|, U32((offset + |head|) / bs));
      Ok(head + tail)
  }

  // ---- The file as a sequence of bytes ----

  type BlockTable = nat -> nat

  function Peek(disk: Image, at: nat): Byte { if at < |disk| then disk[at] else 0 }

  /** Byte `i` of a file whose logical block l lies at block table(l), where
      0 is a hole and reads as zeros. */
  function FileByte(disk: Image, bs: nat, table: BlockTable, i: nat): Byte
    requires bs >= 1
  {
    if table(i / bs) == 0 then 0 else Peek(disk, BlocksToBytes(table(i / bs), bs) + i % bs)
  }

  function FileBytes(disk: Image, bs: nat, table: BlockTable, from: nat, to: nat): (s: seq<Byte>)
    requires bs >= 1 && from <= to
    ensures |s| == to - from
    ensures forall i :: 0 <= i < to - from ==> s[i] == FileByte(disk, bs, table, from + i)
  {
    seq<Byte>(to - from, i requires 0 <= i < to - from => FileByte(disk, bs, table, from + i))
  }

  /** The run returned for `l` says where the blocks from `l` on are, and a
      hole is one block long. */
  ghost predicate Faithful(lookup: Lookup, table: BlockTable, l: nat) {
    && lookup(l).Ok?
    && var r := lookup(l).value;
       && r.pblock == table(l)
       && 1 <= r.len && l + r.len < TWO32
       && (r.pblock == 0 ==> r.len == 1)
       && (r.pblock != 0 ==> forall m :: l <= m < l + r.len ==> table(m) == r.pblock + (m - l))
  }

  predicate OnDisk(disk: Image, bs: nat, p: nat) { p == 0 || BlocksToBytes(p, bs) + bs <= |disk| }

  /** Every logical block under [from, to) is looked up faithfully and lies on
      the disk. */
  ghost predicate Readable(disk: Image, bs: nat, lookup: Lookup, table: BlockTable, from: nat, to: nat)
    requires bs >= 1
  {
    forall l :: from / bs <= l && BlocksToBytes(l, bs) < to ==>
      Faithful(lookup, table, l) && OnDisk(disk, bs, table(l))
  }

  // ---- Block arithmetic ----

  lemma {:induction false} BlockSplit(l: nat, i: nat, bs: nat)
    requires bs >= 1
    ensures (BlocksToBytes(l, bs) + i) / bs == l + i / bs
    ensures (BlocksToBytes(l, bs) + i) % bs == i % bs
    ensures BlocksToBytes(l, bs) + i == BlocksToBytes(l + i / bs, bs) + i % bs
  {
    var q := i / bs;
    assert l * bs + i == (l + q) * bs + i % bs;
    ModUnique(l * bs + i, l + q, bs, i % bs);
  }

  lemma {:induction false} BlockStart(l: nat, bs: nat)
    requires bs >= 1
    ensures BlocksToBytes(l, bs) / bs == l && BlocksToBytes(l, bs) % bs == 0
  {
    ModUnique(l * bs, l, bs, 0);
  }

  lemma {:induction false} WithinBlock(l: nat, i: nat, bs: nat)
    requires i < bs
    ensures (BlocksToBytes(l, bs) + i) / bs == l && (BlocksToBytes(l, bs) + i) % bs == i
  {
    ModUnique(l * bs + i, l, bs, i);
  }

  lemma {:induction false} BlocksGrow(a: nat, b: nat, bs: nat)
    requires bs >= 1
    ensures a <= b <==> BlocksToBytes(a, bs) <= BlocksToBytes(b, bs)
    ensures BlocksToBytes(a + b, bs) == BlocksToBytes(a, bs) + BlocksToBytes(b, bs)
  {
    if a <= b {
      assert (b - a) * bs >= 0;
    } else {
      assert (a - b) * bs >= bs by { MulAtLeast(a - b, bs); }
    }
  }

  lemma {:induction false} BlockIndexBelow(i: nat, n: nat, bs: nat)
    requires bs >= 1 && i < BlocksToBytes(n, bs)
    ensures i / bs < n
  {
    BlockSplit(0, i, bs);
    if i / bs >= n {
      BlocksGrow(n, i / bs, bs);
    }
  }

  // ---- The main loop ----

  /** Inside one run the file byte is the disk byte at the same distance. */
  lemma {:induction false} RunByte(disk: Image, bs: nat, table: BlockTable, l: nat, run: Run, i: nat)
    requires bs >= 1 && run.pblock != 0 && i < BlocksToBytes(run.len, bs)
    requires forall m :: l <= m < l + run.len ==> table(m) == run.pblock + (m - l)
    ensures FileByte(disk, bs, table, BlocksToBytes(l, bs) + i) == Peek(disk, BlocksToBytes(run.pblock, bs) + i)
  {
    hide BlocksToBytes, Peek;
    var q := i / bs;
    BlockSplit(l, i, bs);
    BlockSplit(run.pblock, i, bs);
    BlockIndexBelow(i, run.len, bs);
    assert table(l + q) == run.pblock + q;
  }

  lemma {:induction false} StepBytes(disk: Image, bs: nat, table: BlockTable, l: nat, run: Run, m: nat)
    requires bs >= 1 && run.pblock != 0 && m <= BlocksToBytes(run.len, bs)
    requires BlocksToBytes(run.pblock, bs) + m <= |disk|
    requires forall k :: l <= k < l + run.len ==> table(k) == run.pblock + (k - l)
    ensures var at, from := BlocksToBytes(run.pblock, bs), BlocksToBytes(l, bs);
            disk[at..at + m] == FileBytes(disk, bs, table, from, from + m)
  {
    var at, from := BlocksToBytes(run.pblock, bs), BlocksToBytes(l, bs);
    var s := FileBytes(disk, bs, table, from, from + m);
    forall i | 0 <= i < m ensures disk[at..at + m][i] == s[i] {
      RunByte(disk, bs, table, l, run, i);
    }
  }

  lemma {:induction false} HoleBytes(disk: Image, bs: nat, table: BlockTable, l: nat, m: nat, zeros: seq<Byte>)
    requires bs >= 1 && table(l) == 0 && |zeros| == m <= bs
    requires forall i :: 0 <= i < m ==> zeros[i] == 0
    ensures zeros == FileBytes(disk, bs, table, BlocksToBytes(l, bs), BlocksToBytes(l, bs) + m)
  {
    var s := FileBytes(disk, bs, table, BlocksToBytes(l, bs), BlocksToBytes(l, bs) + m);
    forall i | 0 <= i < m ensures s[i] == zeros[i] {
      WithinBlock(l, i, bs);
    }
  }

  /** The last of `m` bytes of a run is on the disk, so they all are. */
  lemma {:induction false} RunOnDisk(disk: Image, bs: nat, lookup: Lookup, table: BlockTable, l: nat, run: Run, m: nat, to: nat)
    requires bs >= 1 && run.pblock != 0 && 1 <= m <= BlocksToBytes(run.len, bs)
    requires forall k :: l <= k < l + run.len ==> table(k) == run.pblock + (k - l)
    requires Readable(disk, bs, lookup, table, BlocksToBytes(l, bs), to)
    requires BlocksToBytes(l, bs) + m <= to
    ensures BlocksToBytes(run.pblock, bs) + m <= |disk|
  {
    var q := BlockHolding(m - 1, run.len, bs);
    BlockStart(l, bs);
    BlocksGrow(l, q, bs);
    BlocksGrow(run.pblock, q, bs);
    assert OnDisk(disk, bs, table(l + q));
  }

  lemma {:induction false} BlockHolding(i: nat, n: nat, bs: nat) returns (q: nat)
    requires bs >= 1 && i < BlocksToBytes(n, bs)
    ensures q < n && BlocksToBytes(q, bs) <= i < BlocksToBytes(q, bs) + bs
  {
    q := i / bs;
    BlockIndexBelow(i, n, bs);
    BlockSplit(0, i, bs);
  }

  lemma {:induction false} StepReads(disk: Image, bs: nat, lookup: Lookup, table: BlockTable, left: nat, l: nat, to: nat)
    requires bs >= 1 && 1 <= left < TWO31 && BlocksToBytes(l, bs) + left == to
    requires Readable(disk, bs, lookup, table, BlocksToBytes(l, bs), to)
    ensures Faithful(lookup, table, l)
    ensures var run := lookup(l).value;
            var m := Min(left, BlocksToBytes(run.len, bs));
            && 1 <= m && l + run.len < TWO32
            && ReadStep(disk, bs, run, left)
               == Ok(FileBytes(disk, bs, table, BlocksToBytes(l, bs), BlocksToBytes(l, bs) + m))
  {
    BlockStart(l, bs);
    assert Faithful(lookup, table, l);
    var run := lookup(l).value;
    BlocksGrow(1, run.len, bs);
    var m := Min(left, BlocksToBytes(run.len, bs));
    if run.pblock != 0 {
      RunOnDisk(disk, bs, lookup, table, l, run, m, to);
      StepBytes(disk, bs, table, l, run, m);
    } else {
      HoleBytes(disk, bs, table, l, m, seq(m, _ => 0));
    }
  }

  lemma {:induction false} FileBytesConcat(disk: Image, bs: nat, table: BlockTable, a: nat, b: nat, c: nat)
    requires bs >= 1 && a <= b <= c
    ensures FileBytes(disk, bs, table, a, b) + FileBytes(disk, bs, table, b, c) == FileBytes(disk, bs, table, a, c)
  {
    var s := FileBytes(disk, bs, table, a, c);
    forall i | b - a <= i < c - a ensures s[i] == FileBytes(disk, bs, table, b, c)[i - (b - a)] {
      assert a + i == b + (i - (b - a));
    }
  }

  lemma {:induction false} ReadableFrom(disk: Image, bs: nat, lookup: Lookup, table: BlockTable, from: nat, next: nat, to: nat)
    requires bs >= 1 && from / bs <= next / bs
    requires Readable(disk, bs, lookup, table, from, to)
    ensures Readable(disk, bs, lookup, table, next, to)
  {
  }

  lemma {:induction false} ReadableUpTo(disk: Image, bs: nat, lookup: Lookup, table: BlockTable, from: nat, mid: nat, to: nat)
    requires bs >= 1 && mid <= to
    requires Readable(disk, bs, lookup, table, from, to)
    ensures Readable(disk, bs, lookup, table, from, mid)
  {
  }

  /** The main loop delivers the file's bytes from its current block on: the
      block number and the number of bytes read stay in step, and every
      iteration delivers at least one byte. */
  lemma {:induction false} LoopReads(disk: Image, bs: nat, lookup: Lookup, table: BlockTable, left: nat, l: nat, to: nat)
    requires bs >= 1 && left < TWO31 && BlocksToBytes(l, bs) + left == to
    requires Readable(disk, bs, lookup, table, BlocksToBytes(l, bs), to)
    ensures ReadLoop(disk, bs, lookup, left, l) == Ok(FileBytes(disk, bs, table, BlocksToBytes(l, bs), to))
    decreases left
  {
    if left > 0 {
      var run, mid := StepAdvances(disk, bs, lookup, table, left, l, to);
      var from := BlocksToBytes(l, bs);
      var chunk := FileBytes(disk, bs, table, from, mid);
      if mid < to {
        LoopReads(disk, bs, lookup, table, to - mid, l + run.len, to);
        FileBytesConcat(disk, bs, table, from, mid, to);
        LoopUnfold(disk, bs, lookup, left, l, run, chunk, FileBytes(disk, bs, table, mid, to));
      } else {
        LoopUnfold(disk, bs, lookup, left, l, run, chunk, []);
        assert chunk + [] == chunk;
      }
    }
  }

  /** One iteration reads the file up to `mid`, which is the end or the start
      of the block the next iteration looks at. */
  lemma {:induction false} StepAdvances(disk: Image, bs: nat, lookup: Lookup, table: BlockTable, left: nat, l: nat, to: nat)
    returns (run: Run, mid: nat)
    requires bs >= 1 && 1 <= left < TWO31 && BlocksToBytes(l, bs) + left == to
    requires Readable(disk, bs, lookup, table, BlocksToBytes(l, bs), to)
    ensures lookup(l) == Ok(run) && l + run.len < TWO32
    ensures BlocksToBytes(l, bs) < mid <= to
    ensures ReadStep(disk, bs, run, left) == Ok(FileBytes(disk, bs, table, BlocksToBytes(l, bs), mid))
    ensures mid < to ==>
              && mid == BlocksToBytes(l + run.len, bs)
              && Readable(disk, bs, lookup, table, mid, to)
  {
    StepReads(disk, bs, lookup, table, left, l, to);
    run := lookup(l).value;
    mid := BlocksToBytes(l, bs) + Min(left, BlocksToBytes(run.len, bs));
    NextBlock(disk, bs, lookup, table, l, run.len, to);
  }

  lemma {:induction false} NextBlock(disk: Image, bs: nat, lookup: Lookup, table: BlockTable, l: nat, n: nat, to: nat)
    requires bs >= 1
    requires Readable(disk, bs, lookup, table, BlocksToBytes(l, bs), to)
    ensures BlocksToBytes(l + n, bs) == BlocksToBytes(l, bs) + BlocksToBytes(n, bs)
    ensures Readable(disk, bs, lookup, table, BlocksToBytes(l + n, bs), to)
  {
    BlocksGrow(l, n, bs);
    BlockStart(l, bs);
    BlockStart(l + n, bs);
    ReadableFrom(disk, bs, lookup, table, BlocksToBytes(l, bs), BlocksToBytes(l + n, bs), to);
  }

  lemma {:induction false} LoopUnfold(disk: Image, bs: nat, lookup: Lookup, left: nat, l: nat, run: Run, chunk: seq<Byte>, rest: seq<Byte>)
    requires bs >= 1 && left > 0 && l + run.len < TWO32
    requires lookup(l) == Ok(run) && ReadStep(disk, bs, run, left) == Ok(chunk) && 1 <= |chunk| <= left
    requires ReadLoop(disk, bs, lookup, left - |chunk|, l + run.len) == Ok(rest)
    ensures ReadLoop(disk, bs, lookup, left, l) == Ok(chunk + rest)
  {
    hide U32, ReadStep;
    U32Small(l + run.len);
  }

  // ---- Truncation ----

  /** The request is cut at the end of the file exactly when the end of the
      request is representable. */
  lemma {:induction false} TruncateExact(fileSize: nat, size: nat, offset: nat)
    requires fileSize < TWO64 && size < TWO64 && offset < TWO64
    ensures TruncateSize(fileSize, size, offset) ==
            (if offset >= fileSize then 0 else Min(size, fileSize - offset))
            <==> offset >= fileSize || offset + size < TWO64
  {
  }

  // ---- The unaligned first piece ----

  /** Bytes [b, b + h) of the disk are there and are zero. */
  predicate Blank(disk: Image, b: nat, h: nat) {
    b + h <= |disk| && forall i :: b <= i < b + h ==> disk[i] == 0
  }

  /** How far the first piece of a read of [offset, to) reaches. */
  function HeadEnd(bs: nat, offset: nat, to: nat): nat
    requires bs >= 1
  {
    Min(to, offset - offset % bs + bs)
  }

  /** The guard of the cases in which an unaligned start is read correctly:
      the first block is mapped (or the stretch of block 0 read in its place
      is blank), and a read that leaves the first block starts below 4 GiB. */
  predicate HeadSafe(disk: Image, bs: nat, table: BlockTable, offset: nat, to: nat)
    requires bs >= 1 && offset < to
  {
    var b := offset % bs;
    b != 0 ==>
      && (table(offset / bs) != 0 || Blank(disk, b, HeadEnd(bs, offset, to) - offset))
      && (to <= offset - b + bs || offset < TWO32)
  }

  lemma {:induction false} FirstBlock(bs: nat)
    ensures BlocksToBytes(0, bs) == 0
  {
  }

  lemma {:induction false} ByteOf(disk: Image, bs: nat, table: BlockTable, l: nat, i: nat)
    requires i < bs
    ensures FileByte(disk, bs, table, BlocksToBytes(l, bs) + i)
            == if table(l) == 0 then 0 else Peek(disk, BlocksToBytes(table(l), bs) + i)
  {
    hide BlocksToBytes;
    WithinBlock(l, i, bs);
  }

  /** What is read for the first piece is right iff the block is mapped or the
      bytes read instead are zero. */
  lemma {:induction false} HeadPiece(disk: Image, bs: nat, table: BlockTable, l: nat, b: nat, h: nat)
    requires bs >= 1 && 1 <= h < TWO31 && b + h <= bs && OnDisk(disk, bs, table(l))
    ensures var offset := BlocksToBytes(l, bs) + b;
            var r := DiskRead(disk, BlocksToBytes(table(l), bs) + b, h);
            r == Ok(FileBytes(disk, bs, table, offset, offset + h)) <==> table(l) != 0 || Blank(disk, b, h)
  {
    hide BlocksToBytes, FileByte;
    var p := table(l);
    var offset := BlocksToBytes(l, bs) + b;
    var want := FileBytes(disk, bs, table, offset, offset + h);
    var got := DiskRead(disk, BlocksToBytes(p, bs) + b, h);
    FirstBlock(bs);
    forall i | 0 <= i < h
      ensures want[i] == if p == 0 then 0 else Peek(disk, BlocksToBytes(p, bs) + b + i)
    {
      ByteOf(disk, bs, table, l, b + i);
      assert BlocksToBytes(l, bs) + (b + i) == offset + i;
    }
    if p == 0 && got.Ok? && got.value == want {
      forall i | b <= i < b + h ensures disk[i] == 0 {
        assert want[i - b] == 0;
      }
    } else if p != 0 {
      assert got.value == want;
    }
  }

  /** The end block is the start block iff the request ends in it. */
  lemma {:induction false} SameBlock(l: nat, b: nat, n: nat, bs: nat)
    requires b < bs && n >= 1
    ensures (BlocksToBytes(l, bs) + b + (n - 1)) / bs == l <==> b + n <= bs
  {
    hide BlocksToBytes;
    var i := b + n - 1;
    BlockSplit(l, i, bs);
    if b + n <= bs {
      WithinBlock(l, i, bs);
    } else {
      FirstBlock(bs);
      BlockSplit(0, i, bs);
    }
  }

  lemma {:induction false} NoWrap(a: nat, b: nat)
    requires a + b < TWO64
    ensures U64(a + U64(b)) == a + b
  {
  }

  /** The block numbers `first_read` compares, without wrap-around. */
  lemma {:induction false} FirstReadBlocks(l: nat, b: nat, n: nat, bs: nat)
    requires 0 < b < bs && 1 <= n && l < TWO32
    requires BlocksToBytes(l, bs) + b + n <= BlocksToBytes(TWO32 - 1, bs) < TWO63
    ensures var offset := BlocksToBytes(l, bs) + b;
            && U32(offset / bs) == l && offset % bs == b
            && (U32(U64(offset + U64(n - 1)) / bs) == l <==> b + n <= bs)
  {
    hide BlocksToBytes, U32, U64;
    var offset := BlocksToBytes(l, bs) + b;
    WithinBlock(l, b, bs);
    SameBlock(l, b, n, bs);
    U32Small(l);
    var end := offset + (n - 1);
    NoWrap(offset, n - 1);
    BlockIndexBelow(end, TWO32 - 1, bs);
    var last := end / bs;
    U32Small(last);
  }

  /** The distance to the end of the block as `first_read` computes it. */
  lemma {:induction false} FirstReadReach(l: nat, b: nat, k: nat)
    requires k < 32 && 0 < b < Pow2(k)
    requires BlocksToBytes(l, Pow2(k)) + b < TWO63
    ensures 1 <= Pow2(k) < TWO32
    ensures var bs, offset := Pow2(k), BlocksToBytes(l, Pow2(k)) + b;
            var reach := U64(AlignTo(offset, bs) - offset);
            if offset < TWO32 then reach == bs - b && U64(offset + reach) % bs == 0 else reach >= TWO31
  {
    hide AlignTo, Pow2, U32, U64, BlocksToBytes;
    var bs := Pow2(k);
    var offset := BlocksToBytes(l, bs) + b;
    AlignToValue(offset, k);
    WithinBlock(l, b, bs);
    assert AlignTo(offset, bs) == U32(offset) - b + bs;
    if offset < TWO32 {
      NearUnaligned(l, b, bs);
    } else {
      FarUnaligned(offset, b, bs);
    }
  }

  lemma {:induction false} NearUnaligned(l: nat, b: nat, bs: nat)
    requires 0 < b < bs < TWO32 && BlocksToBytes(l, bs) + b < TWO32
    ensures var offset := BlocksToBytes(l, bs) + b;
            && U64(U32(offset) - b + bs - offset) == bs - b
            && U64(offset + (bs - b)) % bs == 0
  {
    hide BlocksToBytes, U32, U64;
    var offset := BlocksToBytes(l, bs) + b;
    BlockStart(l + 1, bs);
    BlocksGrow(l, 1, bs);
    OneBlock(bs);
    U32Small(offset);
    U64Small(bs - b);
    U64Small(offset + (bs - b));
  }

  lemma {:induction false} OneBlock(bs: nat)
    ensures BlocksToBytes(1, bs) == bs
  {
  }

  /** The branches of `first_read`, in terms of the values it computes. */
  lemma {:induction false} FirstReadCases(disk: Image, bs: nat, lookup: Lookup, size: nat, offset: nat, start: nat, end: nat, b: nat, reach: nat)
    requires 1 <= bs < TWO32 && size > 0 && b == offset % bs != 0
    requires start == U32(offset / bs) && end == U32(U64(offset + U64(size - 1)) / bs)
    requires reach == U64(AlignTo(offset, bs) - offset) && lookup(start).Ok?
    ensures var at := BlocksToBytes(lookup(start).value.pblock, bs) + b;
            FirstRead(disk, bs, lookup, size, offset) ==
            if start == end then DiskRead(disk, at, size)
            else if U64(offset + reach) % bs != 0 then Abort
            else DiskRead(disk, at, reach)
  {
    hide U64, U32, AlignTo, DiskRead, BlocksToBytes;
  }

  /** Which bytes the first piece of an unaligned request reads. */
  lemma {:induction false} FirstReadValue(disk: Image, k: nat, lookup: Lookup, l: nat, b: nat, n: nat)
    requires k < 32 && 0 < b < Pow2(k) && 1 <= n < TWO31 && l < TWO32
    requires BlocksToBytes(l, Pow2(k)) + b + n <= BlocksToBytes(TWO32 - 1, Pow2(k)) < TWO63
    requires lookup(l).Ok?
    ensures 1 <= Pow2(k) < TWO32
    ensures var bs, offset := Pow2(k), BlocksToBytes(l, Pow2(k)) + b;
            var at := BlocksToBytes(lookup(l).value.pblock, bs) + b;
            FirstRead(disk, bs, lookup, n, offset) ==
            if b + n <= bs then DiskRead(disk, at, n)
            else if offset < TWO32 then DiskRead(disk, at, bs - b)
            else Abort
  {
    hide FirstRead, U64, U32, AlignTo, Pow2, DiskRead, BlocksToBytes;
    var bs, offset := Pow2(k), BlocksToBytes(l, Pow2(k)) + b;
    FirstReadBlocks(l, b, n, bs);
    FirstReadReach(l, b, k);
    var reach := U64(AlignTo(offset, bs) - offset);
    FirstReadCases(disk, bs, lookup, n, offset, l, U32(U64(offset + U64(n - 1)) / bs), b, reach);
  }

  /** Past 4 GiB the rounded offset lies before the offset itself, and the
      difference wraps to a length no read can satisfy. */
  lemma {:induction false} FarUnaligned(offset: nat, b: nat, bs: nat)
    requires TWO32 <= offset < TWO63 && 0 < b < bs < TWO32
    ensures U64(U32(offset) - b + bs - offset) >= TWO31
  {
    var d := U32(offset) - b + bs - offset;
    assert U32(offset) <= offset - TWO32;
    assert -(TWO63 as int) <= d < 0;
    assert U64(d) == d + TWO64;
  }

  /** The first piece of an unaligned read is right exactly when `HeadSafe`
      holds; in any case a completed piece has the right length. */
  lemma {:induction false} HeadExact(disk: Image, k: nat, lookup: Lookup, table: BlockTable, l: nat, b: nat, n: nat)
    requires k < 32 && 0 < b < Pow2(k) && 1 <= n < TWO31 && l < TWO32
    requires BlocksToBytes(l, Pow2(k)) + b + n <= BlocksToBytes(TWO32 - 1, Pow2(k)) < TWO63
    requires Faithful(lookup, table, l) && OnDisk(disk, Pow2(k), table(l))
    ensures 1 <= Pow2(k) < TWO32
    ensures var bs, offset := Pow2(k), BlocksToBytes(l, Pow2(k)) + b;
            var mid := offset + Min(n, bs - b);
            var r := FirstRead(disk, bs, lookup, n, offset);
            && (r.Ok? ==> |r.value| == mid - offset)
            && (r == Ok(FileBytes(disk, bs, table, offset, mid)) <==>
                  && (table(l) != 0 || Blank(disk, b, mid - offset))
                  && (b + n <= bs || offset < TWO32))
  {
    hide FirstRead, FileByte, BlocksToBytes, Pow2, OnDisk, Blank;
    FirstReadValue(disk, k, lookup, l, b, n);
    HeadPiece(disk, Pow2(k), table, l, b, Min(n, Pow2(k) - b));
  }

  /** The rest of the read starts at a block boundary; it is delivered in full,
      so the whole is right iff the first piece is. */
  lemma {:induction false} AssembleExact(disk: Image, bs: nat, lookup: Lookup, table: BlockTable, offset: nat, mid: nat,
                                         to: nat, head: Outcome<seq<Byte>>, l: nat)
    requires bs >= 1 && offset <= mid <= to < offset + TWO31
    requires head.Ok? ==> |head.value| == mid - offset
    requires mid < to ==>
               && mid == BlocksToBytes(l, bs) && l < TWO32
               && Readable(disk, bs, lookup, table, mid, to)
    ensures (head.Ok? && Assemble(disk, bs, lookup, to - offset, offset, head.value)
                         == Ok(FileBytes(disk, bs, table, offset, to)))
            <==> head == Ok(FileBytes(disk, bs, table, offset, mid))
  {
    hide FileBytes, FileByte, Readable, ReadLoop;
    if head.Ok? {
      RestReads(disk, bs, lookup, table, l, mid, to);
      PiecesExact(disk, bs, table, offset, mid, to, head.value);
    }
  }

  lemma {:induction false} RestReads(disk: Image, bs: nat, lookup: Lookup, table: BlockTable, l: nat, mid: nat, to: nat)
    requires bs >= 1 && mid <= to && to - mid < TWO31
    requires mid < to ==>
               && mid == BlocksToBytes(l, bs) && l < TWO32
               && Readable(disk, bs, lookup, table, mid, to)
    ensures ReadLoop(disk, bs, lookup, to - mid, U32(mid / bs)) == Ok(FileBytes(disk, bs, table, mid, to))
  {
    if mid < to {
      assert U32(mid / bs) == l by { BlockStart(l, bs); }
      LoopReads(disk, bs, lookup, table, to - mid, l, to);
    }
  }

  /** Right pieces make a right whole, and a wrong first piece of the right
      length makes a wrong whole. */
  lemma {:induction false} PiecesExact(disk: Image, bs: nat, table: BlockTable, from: nat, mid: nat, to: nat, head: seq<Byte>)
    requires bs >= 1 && from <= mid <= to && |head| == mid - from
    ensures head + FileBytes(disk, bs, table, mid, to) == FileBytes(disk, bs, table, from, to)
            <==> head == FileBytes(disk, bs, table, from, mid)
  {
    var tail, whole := FileBytes(disk, bs, table, mid, to), FileBytes(disk, bs, table, from, to);
    var want := FileBytes(disk, bs, table, from, mid);
    FileBytesConcat(disk, bs, table, from, mid, to);
    if head + tail == whole {
      assert head == (head + tail)[..|head|] == (want + tail)[..|head|] == want;
    }
  }

  lemma {:induction false} NextReadable(disk: Image, bs: nat, lookup: Lookup, table: BlockTable, l: nat, b: nat, to: nat)
    requires 0 < b < bs && BlocksToBytes(l, bs) + b < to <= BlocksToBytes(TWO32 - 1, bs)
    requires Readable(disk, bs, lookup, table, BlocksToBytes(l, bs) + b, to)
    ensures Faithful(lookup, table, l) && OnDisk(disk, bs, table(l))
    ensures BlocksToBytes(l + 1, bs) == BlocksToBytes(l, bs) + bs
    ensures BlocksToBytes(l + 1, bs) < to ==>
              l + 1 < TWO32 && Readable(disk, bs, lookup, table, BlocksToBytes(l + 1, bs), to)
  {
    WithinBlock(l, b, bs);
    BlockStart(l + 1, bs);
    BlocksGrow(l, 1, bs);
    BlocksGrow(l + 1, TWO32 - 1, bs);
    ReadableFrom(disk, bs, lookup, table, BlocksToBytes(l, bs) + b, BlocksToBytes(l + 1, bs), to);
  }

  /** An unaligned nonempty read within the file, after truncation. */
  lemma {:induction false} ReadUnaligned(disk: Image, k: nat, lookup: Lookup, table: BlockTable, l: nat, b: nat, n: nat)
    requires k < 32 && 0 < b < Pow2(k) && 1 <= n < TWO31 && l < TWO32
    requires BlocksToBytes(l, Pow2(k)) + b + n <= BlocksToBytes(TWO32 - 1, Pow2(k)) < TWO63
    requires var offset := BlocksToBytes(l, Pow2(k)) + b;
             Readable(disk, Pow2(k), lookup, table, offset, offset + n)
    ensures 1 <= Pow2(k) < TWO32
    ensures var bs, offset := Pow2(k), BlocksToBytes(l, Pow2(k)) + b;
            var head := FirstRead(disk, bs, lookup, n, offset);
            (head.Ok? && Assemble(disk, bs, lookup, n, offset, head.value)
                         == Ok(FileBytes(disk, bs, table, offset, offset + n)))
            <==>
            && (table(l) != 0 || Blank(disk, b, Min(n, bs - b)))
            && (b + n <= bs || offset < TWO32)
  {
    hide FirstRead, Assemble, FileBytes, Pow2, Readable, Faithful, OnDisk, Blank;
    BlockSizeBounds(k);
    var bs, offset := Pow2(k), BlocksToBytes(l, Pow2(k)) + b;
    NextReadable(disk, bs, lookup, table, l, b, offset + n);
    HeadExact(disk, k, lookup, table, l, b, n);
    AssembleExact(disk, bs, lookup, table, offset, offset + Min(n, bs - b), offset + n,
                  FirstRead(disk, bs, lookup, n, offset), l + 1);
  }

  lemma {:induction false} ReadAligned(disk: Image, bs: nat, lookup: Lookup, table: BlockTable, l: nat, n: nat)
    requires 1 <= bs < TWO32 && 1 <= n < TWO31 && l < TWO32
    requires Readable(disk, bs, lookup, table, BlocksToBytes(l, bs), BlocksToBytes(l, bs) + n)
    ensures var offset := BlocksToBytes(l, bs);
            && FirstRead(disk, bs, lookup, n, offset) == Ok([])
            && Assemble(disk, bs, lookup, n, offset, []) == Ok(FileBytes(disk, bs, table, offset, offset + n))
  {
    var offset := BlocksToBytes(l, bs);
    BlockStart(l, bs);
    assert FileBytes(disk, bs, table, offset, offset) == [];
    AssembleExact(disk, bs, lookup, table, offset, offset, offset + n, Ok([]), l);
  }

  /** A nonempty read of [offset, offset + n), after truncation. */
  lemma {:induction false} ReadTruncated(disk: Image, k: nat, lookup: Lookup, table: BlockTable, n: nat, offset: nat)
    requires k < 32 && 1 <= n < TWO31
    requires offset + n <= BlocksToBytes(TWO32 - 1, Pow2(k)) < TWO63
    requires Readable(disk, Pow2(k), lookup, table, offset, offset + n)
    ensures 1 <= Pow2(k) < TWO32
    ensures var bs := Pow2(k);
            var head := FirstRead(disk, bs, lookup, n, offset);
            (head.Ok? && Assemble(disk, bs, lookup, n, offset, head.value)
                         == Ok(FileBytes(disk, bs, table, offset, offset + n)))
            <==> HeadSafe(disk, bs, table, offset, offset + n)
  {
    hide FirstRead, Assemble, FileBytes, Pow2, Readable;
    BlockSizeBounds(k);
    var bs := Pow2(k);
    var l, b := offset / bs, offset % bs;
    assert offset == BlocksToBytes(l, bs) + b by { BlockSplit(0, offset, bs); }
    assert l < TWO32 by { BlockIndexBelow(offset, TWO32 - 1, bs); }
    if b == 0 {
      ReadAligned(disk, bs, lookup, table, l, n);
    } else {
      ReadUnaligned(disk, k, lookup, table, l, b, n);
    }
  }

  /** `op_read` delivers exactly the bytes [offset, min(offset + size, file
      size)) of the file, zeros in holes, if and only if the first piece is
      safe. */
  lemma {:induction false} ReadExact(disk: Image, k: nat, lookup: Lookup, table: BlockTable, fileSize: nat, size: nat, offset: nat)
    requires k < 32 && size < TWO31
    requires fileSize <= BlocksToBytes(TWO32 - 1, Pow2(k))
    requires Readable(disk, Pow2(k), lookup, table, offset, Min(offset + size, fileSize))
    ensures 1 <= Pow2(k) < TWO32
    ensures var bs, to := Pow2(k), Min(offset + size, fileSize);
            var r := ReadBytes(disk, bs, lookup, fileSize, size, offset);
            if to <= offset then r == Ok([])
            else r == Ok(FileBytes(disk, bs, table, offset, to)) <==> HeadSafe(disk, bs, table, offset, to)
  {
    hide FirstRead, Assemble, FileBytes, Pow2, Readable, HeadSafe;
    BlockSizeBounds(k);
    var to := Min(offset + size, fileSize);
    if offset < to {
      TruncateWithin(fileSize, size, offset);
      ReadTruncated(disk, k, lookup, table, to - offset, offset);
    } else {
      ReadNothing(disk, Pow2(k), lookup, fileSize, size, offset);
    }
  }

  lemma {:induction false} BlockSizeBounds(k: nat)
    requires k < 32
    ensures 1 <= Pow2(k) < TWO32 && BlocksToBytes(TWO32 - 1, Pow2(k)) < TWO63
  {
    Pow2Grows(k, 31);
    Pow2Thirty2();
  }

  lemma {:induction false} TruncateWithin(fileSize: nat, size: nat, offset: nat)
    requires offset < fileSize < TWO63 && size < TWO31
    ensures TruncateSize(fileSize, size, offset) == Min(offset + size, fileSize) - offset
  {
  }

  lemma {:induction false} TruncateAway(fileSize: nat, size: nat, offset: nat)
    requires fileSize < TWO64 && Min(offset + size, fileSize) <= offset
    ensures TruncateSize(fileSize, size, offset) == 0
  {
  }

  lemma {:induction false} ReadNothing(disk: Image, bs: nat, lookup: Lookup, fileSize: nat, size: nat, offset: nat)
    requires 1 <= bs < TWO32 && fileSize < TWO64 && Min(offset + size, fileSize) <= offset
    ensures ReadBytes(disk, bs, lookup, fileSize, size, offset) == Ok([])
  {
    hide U64, U32, AlignTo, TruncateSize;
    TruncateAway(fileSize, size, offset);
    assert FirstRead(disk, bs, lookup, 0, offset) == Ok([]);
    var tail := ReadLoop(disk, bs, lookup, 0, U32((offset + 0) / bs));
    assert tail == Ok([]) && [] + tail.value == [];
  }

  /** Two adjacent reads concatenate to one. */
  lemma {:induction false} AdjacentReads(disk: Image, k: nat, lookup: Lookup, table: BlockTable, fileSize: nat,
                                         offset: nat, n1: nat, n2: nat)
    requires k < 32 && 0 < n1 && 0 < n2 && n1 + n2 < TWO31 && offset + n1 + n2 <= fileSize
    requires fileSize <= BlocksToBytes(TWO32 - 1, Pow2(k))
    requires Readable(disk, Pow2(k), lookup, table, offset, offset + n1 + n2)
    requires HeadSafe(disk, Pow2(k), table, offset, offset + n1 + n2)
    requires HeadSafe(disk, Pow2(k), table, offset, offset + n1)
    requires HeadSafe(disk, Pow2(k), table, offset + n1, offset + n1 + n2)
    ensures 1 <= Pow2(k) < TWO32
    ensures var bs := Pow2(k);
            var r1 := ReadBytes(disk, bs, lookup, fileSize, n1, offset);
            var r2 := ReadBytes(disk, bs, lookup, fileSize, n2, offset + n1);
            && r1.Ok? && r2.Ok?
            && ReadBytes(disk, bs, lookup, fileSize, n1 + n2, offset) == Ok(r1.value + r2.value)
  {
    hide ReadBytes, FirstRead, FileBytes, FileByte, HeadSafe, Readable, Pow2;
    BlockSizeBounds(k);
    var bs, mid, to := Pow2(k), offset + n1, offset + n1 + n2;
    DivMonotone(offset, mid, bs);
    ReadableFrom(disk, bs, lookup, table, offset, mid, to);
    ReadableUpTo(disk, bs, lookup, table, offset, mid, to);
    ReadExact(disk, k, lookup, table, fileSize, n1 + n2, offset);
    ReadExact(disk, k, lookup, table, fileSize, n1, offset);
    ReadExact(disk, k, lookup, table, fileSize, n2, mid);
    FileBytesConcat(disk, bs, table, offset, mid, to);
  }

  lemma {:induction false} DivMonotone(a: nat, b: nat, bs: nat)
    requires bs >= 1 && a <= b
    ensures a / bs <= b / bs
  {
    hide BlocksToBytes;
    FirstBlock(bs);
    OneBlock(bs);
    BlockSplit(0, a, bs);
    BlockSplit(0, b, bs);
    var p, q := a / bs, b / bs;
    BlocksGrow(q + 1, p, bs);
    BlocksGrow(q, 1, bs);
  }

  // ---- Two block tables ----

  /** Block `l` of the two tables holds the same bytes up to `to`: the tables
      agree, or the first one's block is blank there and the second has a hole. */
  predicate SameOrBlank(disk: Image, bs: nat, a: BlockTable, b: BlockTable, l: nat, to: nat)
    requires BlocksToBytes(l, bs) < to
  {
    a(l) == b(l) || Blank(disk, BlocksToBytes(a(l), bs), Min(bs, to - BlocksToBytes(l, bs)))
  }

  /** Reading from a block boundary on through the first table gives the second
      one's file iff every stand-in for a hole is blank as far as it is read. */
  lemma {:induction false} TablesAgree(disk: Image, bs: nat, a: BlockTable, b: BlockTable, first: nat, to: nat)
    requires bs >= 1 && BlocksToBytes(first, bs) <= to
    requires forall l :: first <= l && BlocksToBytes(l, bs) < to ==>
               OnDisk(disk, bs, a(l)) && (a(l) == b(l) || (b(l) == 0 && a(l) != 0))
    ensures var from := BlocksToBytes(first, bs);
            FileBytes(disk, bs, a, from, to) == FileBytes(disk, bs, b, from, to)
            <==> forall l :: first <= l && BlocksToBytes(l, bs) < to ==> SameOrBlank(disk, bs, a, b, l, to)
  {
    hide BlocksToBytes, FileByte, SameOrBlank;
    var from := BlocksToBytes(first, bs);
    var p, q := FileBytes(disk, bs, a, from, to), FileBytes(disk, bs, b, from, to);
    if p == q {
      forall l | first <= l && BlocksToBytes(l, bs) < to ensures SameOrBlank(disk, bs, a, b, l, to) {
        BlocksGrow(first, l, bs);
        AgreeBlock(disk, bs, a, b, l, from, to);
      }
    }
    if forall l :: first <= l && BlocksToBytes(l, bs) < to ==> SameOrBlank(disk, bs, a, b, l, to) {
      forall i | 0 <= i < to - from ensures p[i] == q[i] {
        var l, r := BlockAndRest(first, i, bs);
        AgreeByte(disk, bs, a, b, l, r, to);
        assert BlocksToBytes(l, bs) + r == from + i;
      }
    }
  }

  lemma {:induction false} BlockAndRest(first: nat, i: nat, bs: nat) returns (l: nat, r: nat)
    requires bs >= 1
    ensures first <= l && r < bs && BlocksToBytes(l, bs) + r == BlocksToBytes(first, bs) + i
  {
    BlockSplit(first, i, bs);
    l, r := first + i / bs, i % bs;
  }

  lemma {:induction false} AgreeBlock(disk: Image, bs: nat, a: BlockTable, b: BlockTable, l: nat, from: nat, to: nat)
    requires bs >= 1 && from <= BlocksToBytes(l, bs) < to
    requires OnDisk(disk, bs, a(l)) && (a(l) == b(l) || (b(l) == 0 && a(l) != 0))
    requires FileBytes(disk, bs, a, from, to) == FileBytes(disk, bs, b, from, to)
    ensures SameOrBlank(disk, bs, a, b, l, to)
  {
    hide BlocksToBytes, FileByte;
    if a(l) != b(l) {
      var at, start := BlocksToBytes(a(l), bs), BlocksToBytes(l, bs);
      forall j | at <= j < at + Min(bs, to - start) ensures disk[j] == 0 {
        var i := j - at;
        ByteOf(disk, bs, a, l, i);
        ByteOf(disk, bs, b, l, i);
        assert FileBytes(disk, bs, a, from, to)[start + i - from] == FileByte(disk, bs, a, from + (start + i - from));
        assert FileBytes(disk, bs, b, from, to)[start + i - from] == FileByte(disk, bs, b, from + (start + i - from));
        assert from + (start + i - from) == start + i;
      }
    }
  }

  lemma {:induction false} AgreeByte(disk: Image, bs: nat, a: BlockTable, b: BlockTable, l: nat, i: nat, to: nat)
    requires i < bs && BlocksToBytes(l, bs) + i < to && SameOrBlank(disk, bs, a, b, l, to)
    requires a(l) == b(l) || (b(l) == 0 && a(l) != 0)
    ensures FileByte(disk, bs, a, BlocksToBytes(l, bs) + i) == FileByte(disk, bs, b, BlocksToBytes(l, bs) + i)
  {
    hide BlocksToBytes, FileByte;
    ByteOf(disk, bs, a, l, i);
    ByteOf(disk, bs, b, l, i);
  }

  // ---- Failing cases ----

  /** From 4 GiB on, every unaligned read that leaves its first block fails. */
  lemma {:induction false} FarCrossingAborts(disk: Image, k: nat, lookup: Lookup, fileSize: nat, size: nat, l: nat, b: nat)
    requires k < 32 && size < TWO31 && 0 < b < Pow2(k)
    requires TWO32 <= BlocksToBytes(l, Pow2(k)) + b < fileSize <= BlocksToBytes(TWO32 - 1, Pow2(k))
    requires Pow2(k) < b + Min(size, fileSize - (BlocksToBytes(l, Pow2(k)) + b))
    ensures 1 <= Pow2(k) < TWO32
    ensures ReadBytes(disk, Pow2(k), lookup, fileSize, size, BlocksToBytes(l, Pow2(k)) + b).Abort?
  {
    hide BlocksToBytes, Pow2, FirstRead, Assemble, TruncateSize;
    BlockSizeBounds(k);
    var bs, offset := Pow2(k), BlocksToBytes(l, Pow2(k)) + b;
    var n := Min(size, fileSize - offset);
    TruncateWithin(fileSize, size, offset);
    WithinBlock(l, b, bs);
    BlockIndexBelow(offset, TWO32 - 1, bs);
    if lookup(l).Ok? {
      FirstReadValue(disk, k, lookup, l, b, n);
    } else {
      FirstReadFails(disk, bs, lookup, n, l, b);
    }
  }

  lemma {:induction false} FirstReadFails(disk: Image, bs: nat, lookup: Lookup, n: nat, l: nat, b: nat)
    requires 0 < b < bs < TWO32 && n >= 1 && l < TWO32 && lookup(l).Abort?
    ensures FirstRead(disk, bs, lookup, n, BlocksToBytes(l, bs) + b).Abort?
  {
    hide BlocksToBytes, AlignTo, U32, U64, DiskRead;
    WithinBlock(l, b, bs);
    U32Small(l);
  }
}
