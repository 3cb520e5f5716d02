/** Transfers into a caller's buffer (fuse/disk.c): the whole-block branch of
    `pread_wrapper`, `__disk_read`, and the read context. */
module DiskIO {
  import opened Machine
  import opened Disk

  const PREAD_BLOCK: nat := 1024

  /** `p` after `src` has been copied over it at position `at`. */
  ghost function Overlay(p: seq<Byte>, at: nat, src: seq<Byte>): (q: seq<Byte>)
    requires at + |src| <= |p|
    ensures |q| == |p|
  {
    p[..at] + src + p[at + |src|..]
  }

  /** `memcpy`. */
  method Copy(p: array<Byte>, at: nat, src: seq<Byte>)
    requires at + |src| <= p.Length
    modifies p
    ensures p[..] == Overlay(old(p[..]), at, src)
  {
    forall i | 0 <= i < |src| {
      p[at + i] := src[i];
    }
  }

  lemma {:induction false} OverlayTwice(p: seq<Byte>, at: nat, a: seq<Byte>, b: seq<Byte>)
    requires at + |a| + |b| <= |p|
    ensures Overlay(Overlay(p, at, a), at + |a|, b) == Overlay(p, at, a + b)
  {
  }

  /** `__disk_read` into `p` at position `at`. */
  method ReadInto(disk: Image, where: nat, size: nat, p: array<Byte>, at: nat) returns (r: Outcome<nat>)
    requires size < TWO31 ==> at + size <= p.Length
    modifies p
    ensures match DiskRead(disk, where, size)
            case Abort => r.Abort?
            case Ok(s) => r == Ok(size) && p[..] == Overlay(old(p[..]), at, s)
  {
    var s := DiskRead(disk, where, size);
    if s.Abort? {
      return Abort;
    }
    Copy(p, at, s.value);
    r := Ok(size);
  }

  /** `struct disk_ctx`: a window of the disk that is read front to back. */
  class DiskCtx {
    var cur: nat
    var size: nat

    /** `disk_ctx_create`. */
    constructor (where: nat, size: nat, len: nat)
      ensures this.cur == where && this.size == BlocksToBytes(len, size)
    {
      this.cur := where;
      this.size := BlocksToBytes(len, size);
    }

    /** `__disk_ctx_read`: at most what is left of the window, which then
        shrinks by what was read. */
    method Read(disk: Image, wanted: nat, p: array<Byte>, at: nat) returns (r: Outcome<nat>)
      requires at + wanted <= p.Length
      modifies this, p
      ensures old(size) == 0 ==> r.Abort?
      ensures old(size) != 0 ==>
                match DiskRead(disk, old(cur), Min(wanted, old(size)))
                case Abort => r.Abort?
                case Ok(s) =>
                  && r == Ok(|s|) && p[..] == Overlay(old(p[..]), at, s)
                  && cur == old(cur) + |s| && size == old(size) - |s|
    {
      if size == 0 {
        return Abort;
      }
      var n := if wanted > size then size else wanted;
      r := ReadInto(disk, cur, n, p, at);
      if r.Ok? {
        cur, size := cur + r.value, size - r.value;
      }
    }
  }

  // ---- Whole-block reading ----

  datatype Access = Access(where: nat, size: nat)

  /** Reads start on a 1024-byte boundary and cover whole such blocks. */
  predicate AllAligned(log: seq<Access>) {
    forall i :: 0 <= i < |log| ==> log[i].where % 1024 == 0 && log[i].size % 1024 == 0 && log[i].size > 0
  }

  /** The reads follow one another without gap or overlap from `from` to `to`. */
  predicate Consecutive(log: seq<Access>, from: nat, to: nat)
    decreases |log|
  {
    if log == [] then from == to
    else
      var last := log[|log| - 1];
      last.where + last.size == to && Consecutive(log[..|log| - 1], from, last.where)
  }

  /** Start of the first block a request touches. */
  function TouchedFrom(where: nat): nat { where - where % 1024 }

  /** End of the last block a request touches; an empty request still touches
      the block it starts in. */
  function TouchedTo(where: nat, size: nat): nat {
    (where + (if size == 0 then 1 else size) - 1) / 1024 * 1024 + 1024
  }

  /** What the reads of one request are: whole aligned blocks, one after the
      other. A completed request has read exactly the blocks it touches; after
      an aborted one the last read reaches past the end of the disk. */
  predicate GoodLog(disk: Image, log: seq<Access>, from: nat, to: nat, ok: bool) {
    && AllAligned(log)
    && if ok then Consecutive(log, from, to)
       else
         && log != []
         && var last := log[|log| - 1];
            last.where + last.size > |disk| && Consecutive(log, from, last.where + last.size)
  }

  lemma {:induction false} LogNext(log: seq<Access>, from: nat, a: Access)
    requires AllAligned(log) && Consecutive(log, from, a.where)
    requires a.where % 1024 == 0 && a.size % 1024 == 0 && a.size > 0
    ensures AllAligned(log + [a]) && Consecutive(log + [a], from, a.where + a.size)
  {
    assert (log + [a])[..|log|] == log;
  }

  /** Every block a request touches is on the disk. */
  predicate BlocksPresent(disk: Image, where: nat, size: nat) { TouchedTo(where, size) <= |disk| }

  /** `pread` of whole blocks; a short transfer fails the assertion behind it. */
  method PreadBlocks(disk: Image, where: nat, size: nat, log: seq<Access>, ghost from: nat)
    returns (r: Outcome<seq<Byte>>, log': seq<Access>)
    requires where % 1024 == 0 && size % 1024 == 0 && size > 0
    requires AllAligned(log) && Consecutive(log, from, where)
    ensures log' == log + [Access(where, size)]
    ensures GoodLog(disk, log', from, where + size, r.Ok?)
    ensures r == if where + size <= |disk| then Ok(disk[where..where + size]) else Abort
  {
    LogNext(log, from, Access(where, size));
    log' := log + [Access(where, size)];
    r := if where + size <= |disk| then Ok(disk[where..where + size]) else Abort;
  }

  /** The block-aligned branch of `pread_wrapper`: a partial first block, whole
      blocks in the middle, a partial last block. It reads exactly the blocks
      the request touches, in order and each once, and delivers exactly the
      bytes asked for iff all of them are on the disk. */
  method PreadWrapper(disk: Image, p: array<Byte>, size0: nat, where0: nat) returns (r: Outcome<nat>, log: seq<Access>)
    requires size0 <= p.Length && size0 < TWO31
    modifies p
    ensures GoodLog(disk, log, TouchedFrom(where0), TouchedTo(where0, size0), r.Ok?)
    ensures r.Ok? <==> BlocksPresent(disk, where0, size0)
    ensures r.Ok? ==>
              && r.value == size0 && where0 + size0 <= |disk|
              && p[..] == Overlay(old(p[..]), 0, disk[where0..where0 + size0])
  {
    hide BlocksPresent, Overlay, TouchedTo, Consecutive, AllAligned;
    var at, size, where := 0, size0, where0;
    var first := where % PREAD_BLOCK;
    log := [];
    LogStart(where);
    if first != 0 {
      TouchedSplit(where, size);
      PresentMeaning(disk, where0, size0);
      PresentMeaning(disk, where0 + Min(size, 1024 - first), size0 - Min(size, 1024 - first));
      var n;
      n, log := PreadFirst(disk, p, size, where);
      if n.Abort? {
        return Abort, log;
      }
      at, size, where := at + n.value, size - n.value, where + n.value;
      if size == 0 {
        return Ok(at), log;
      }
    }
    r, log := PreadRest(disk, p, at, size, where, log, TouchedFrom(where0));
    if r.Ok? {
      JoinPieces(disk, old(p[..]), 0, where0, at, size);
    }
  }

  /** The partial first block. */
  method PreadFirst(disk: Image, p: array<Byte>, size: nat, where: nat) returns (r: Outcome<nat>, log: seq<Access>)
    requires size <= p.Length && where % 1024 != 0
    modifies p
    ensures GoodLog(disk, log, TouchedFrom(where), TouchedFrom(where) + 1024, r.Ok?)
    ensures r.Ok? <==> TouchedFrom(where) + 1024 <= |disk|
    ensures r.Ok? ==>
              && r.value == Min(size, 1024 - where % 1024)
              && p[..] == Overlay(old(p[..]), 0, disk[where..where + r.value])
  {
    hide Overlay, GoodLog;
    var first := where % PREAD_BLOCK;
    LogStart(where);
    var start := where - first;
    var block;
    block, log := PreadBlocks(disk, start, PREAD_BLOCK, [], start);
    if block.Abort? {
      return Abort, log;
    }
    var n := Min(size, PREAD_BLOCK - first);
    SubSlice(disk, start, PREAD_BLOCK, first, n);
    Copy(p, 0, block.value[first..first + n]);
    r := Ok(n);
  }

  /** A slice of a slice. */
  lemma {:induction false} SubSlice(s: seq<Byte>, at: nat, len: nat, from: nat, n: nat)
    requires at + len <= |s| && from + n <= len
    ensures s[at..at + len][from..from + n] == s[at + from..at + from + n]
  {
    var outer, inner := s[at..at + len], s[at + from..at + from + n];
    forall i | 0 <= i < n ensures outer[from..from + n][i] == inner[i] {
      assert outer[from + i] == s[at + (from + i)];
    }
  }

  lemma {:induction false} LogStart(where: nat)
    ensures TouchedFrom(where) % 1024 == 0
    ensures AllAligned([]) && Consecutive([], TouchedFrom(where), TouchedFrom(where))
  {
  }

  lemma {:induction false} PresentMeaning(disk: Image, where: nat, size: nat)
    ensures BlocksPresent(disk, where, size) <==> TouchedTo(where, size) <= |disk|
  {
  }

  lemma {:induction false} TouchedSplit(where: nat, size: nat)
    requires where % 1024 != 0
    ensures var n, block := Min(size, 1024 - where % 1024), TouchedFrom(where) + 1024;
            if size == n then TouchedTo(where, size) == block
            else
              && where + n == block && TouchedTo(where + n, size - n) == TouchedTo(where, size)
              && block <= TouchedTo(where, size)
  {
    var f, q := where % 1024, where / 1024;
    var last := where + (if size == 0 then 1 else size) - 1;
    assert where == 1024 * q + f && TouchedFrom(where) == 1024 * q;
    if size <= 1024 - f {
      assert last / 1024 == q;
      assert TouchedTo(where, size) == 1024 * q + 1024;
    } else {
      var n := 1024 - f;
      assert last / 1024 >= q + 1;
      assert where + n + (size - n) - 1 == last;
      assert TouchedTo(where + n, size - n) == last / 1024 * 1024 + 1024;
    }
  }

  /** Two adjacent pieces of the disk land side by side in the buffer. */
  lemma {:induction false} JoinPieces(disk: Image, p: seq<Byte>, at: nat, where: nat, a: nat, b: nat)
    requires where + a + b <= |disk| && at + a + b <= |p|
    ensures Overlay(Overlay(p, at, disk[where..where + a]), at + a, disk[where + a..where + a + b])
            == Overlay(p, at, disk[where..where + a + b])
  {
    assert disk[where..where + a] + disk[where + a..where + a + b] == disk[where..where + a + b];
    OverlayTwice(p, at, disk[where..where + a], disk[where + a..where + a + b]);
  }

  /** The last block that an aligned request touches. */
  lemma {:induction false} TouchedAligned(where: nat, size: nat)
    requires where % 1024 == 0
    ensures var mid := size / 1024 * 1024;
            TouchedTo(where, size) == where + mid + (if size == mid && mid != 0 then 0 else 1024)
  {
    var q, r := size / 1024, size % 1024;
    var last := where + (if size == 0 then 1 else size) - 1;
    if r == 0 && q != 0 {
      assert last / 1024 == where / 1024 + q - 1;
    } else {
      assert last / 1024 == where / 1024 + q;
    }
  }

  /** The aligned remainder: the middle blocks, then one partial block. */
  method PreadRest(disk: Image, p: array<Byte>, at0: nat, size0: nat, where0: nat, log0: seq<Access>, ghost from: nat)
    returns (r: Outcome<nat>, log: seq<Access>)
    requires at0 + size0 <= p.Length && at0 + size0 < TWO31 && where0 % 1024 == 0
    requires AllAligned(log0) && Consecutive(log0, from, where0)
    modifies p
    ensures GoodLog(disk, log, from, TouchedTo(where0, size0), r.Ok?)
    ensures r.Ok? <==> BlocksPresent(disk, where0, size0)
    ensures r.Ok? ==>
              && r.value == at0 + size0 && where0 + size0 <= |disk|
              && p[..] == Overlay(old(p[..]), at0, disk[where0..where0 + size0])
  {
    hide BlocksPresent, AllAligned, Overlay, Consecutive, TouchedTo;
    TouchedAligned(where0, size0);
    PresentMeaning(disk, where0, size0);
    var at, size, where := at0, size0, where0;
    log := log0;
    var mid := size / PREAD_BLOCK * PREAD_BLOCK;
    if mid != 0 {
      var blocks;
      blocks, log := PreadBlocks(disk, where, mid, log, from);
      if blocks.Abort? {
        return Abort, log;
      }
      Copy(p, at, blocks.value);
      at, size, where := at + mid, size - mid, where + mid;
      if size == 0 {
        return Ok(at), log;
      }
    }
    r, log := PreadLast(disk, p, at, size, where, log, from);
    if r.Ok? && mid != 0 {
      JoinPieces(disk, old(p[..]), at0, where0, mid, size);
    }
  }

  /** The partial last block. */
  method PreadLast(disk: Image, p: array<Byte>, at: nat, size: nat, where: nat, log0: seq<Access>, ghost from: nat)
    returns (r: Outcome<nat>, log: seq<Access>)
    requires at + size <= p.Length && size < 1024 && where % 1024 == 0
    requires AllAligned(log0) && Consecutive(log0, from, where)
    modifies p
    ensures GoodLog(disk, log, from, where + 1024, r.Ok?)
    ensures r.Ok? <==> where + 1024 <= |disk|
    ensures r.Ok? ==> r.value == at + size && p[..] == Overlay(old(p[..]), at, disk[where..where + size])
  {
    hide Overlay, AllAligned, Consecutive;
    var last;
    last, log := PreadBlocks(disk, where, PREAD_BLOCK, log0, from);
    if last.Abort? {
      return Abort, log;
    }
    SubSlice(disk, where, PREAD_BLOCK, 0, size);
    Copy(p, at, last.value[0..size]);
    r := Ok(at + size);
  }

  /** On a disk of whole blocks the only request inside the disk that is
      refused is the empty one at its very end. */
  lemma {:induction false} WholeBlockDisk(disk: Image, where: nat, size: nat)
    requires |disk| % 1024 == 0
    ensures BlocksPresent(disk, where, size) <==> where + size <= |disk| && !(size == 0 && where == |disk|)
  {
  }
}
