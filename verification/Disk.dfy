/** The disk layer of fuse/disk.c over an immutable byte sequence. */
module Disk {
  import opened Machine

  type Image = seq<Byte>

  /** `BLOCKS2BYTES`. */
  function BlocksToBytes(blocks: nat, bs: nat): nat { blocks * bs }

  /** `__disk_read`: the transfer count passes through an `int`, and the
      assertion after `pread` demands a complete transfer. */
  function DiskRead(disk: Image, where: nat, size: nat): (r: Outcome<seq<Byte>>)
    ensures r.Ok? <==> size < TWO31 && where + size <= |disk|
    ensures r.Ok? ==> |r.value| == size && forall i :: 0 <= i < size ==> r.value[i] == disk[where + i]
  {
    if size < TWO31 && where + size <= |disk| then Ok(disk[where..where + size]) else Abort
  }

  /** `disk_read_u32`: the little-endian word at `where`. */
  function DiskReadU32(disk: Image, where: nat): (r: Outcome<nat>)
    ensures r.Ok? <==> where + 4 <= |disk|
    ensures r.Ok? ==> r.value == LE32(disk, where)
  {
    var s :- DiskRead(disk, where, 4);
    Ok(LE32(s, 0))
  }
}
