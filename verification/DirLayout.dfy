/** Directories as they lie on the disk (struct of fuse/types/ext4_dentry.h),
    and that the model reads back the records that were written. */
module DirLayout {
  import opened Machine
  import opened Layout
  import opened Directory

  /** A record as written; `pad` is what lies between its name and its end. */
  datatype DirEntry = DirEntry(inode: nat, recLen: nat, fileType: Byte, name: Name, pad: seq<Byte>)

  predicate GoodEntry(e: DirEntry) {
    && e.inode < TWO32 && e.recLen < 0x1_0000 && |e.name| <= 255
    && e.recLen == 8 + |e.name| + |e.pad|
  }

  /** `struct ext4_dir_entry_2`. */
  function EntryFields(e: DirEntry): (fs: seq<Field>)
    requires |e.name| <= 255
    ensures |fs| == 5
  {
    [F32(e.inode), F16(e.recLen), F8(|e.name|), F8(e.fileType), Raw(e.name)]
  }

  function EntryBytes(e: DirEntry): seq<Byte>
    requires |e.name| <= 255
  {
    Write(EntryFields(e)) + e.pad
  }

  lemma {:induction false} EntryOffsets(e: DirEntry)
    requires GoodEntry(e)
    ensures var fs := EntryFields(e);
            && Offset(fs, 0) == 0 && Offset(fs, 1) == 4 && Offset(fs, 2) == 6 && Offset(fs, 4) == 8
            && |Write(fs)| == 8 + |e.name| && |EntryBytes(e)| == e.recLen
  {
    hide Struct, Bytes;
    var fs := EntryFields(e);
    assert Offset(fs, 1) == 4;
    assert Offset(fs, 2) == 6;
    assert Offset(fs, 3) == 7;
    assert Offset(fs, 4) == 8;
    StructLength(fs, 5);
  }

  /** A record written anywhere is the record read there. */
  lemma {:induction false} RecordWritten(s: seq<Byte>, at: nat, e: DirEntry)
    requires GoodEntry(e) && Holds(s, at, Write(EntryFields(e)))
    ensures HasRecord(s, at) && ParseRecord(s, at) == Record(e.inode, e.recLen, e.name)
  {
    hide Struct, LE16, LE32, Offset;
    var fs := EntryFields(e);
    EntryOffsets(e);
    ReadMember(s, at, fs, 5, 0);
    ReadMember(s, at, fs, 5, 1);
    ReadMember(s, at, fs, 5, 2);
    ReadMember(s, at, fs, 5, 4);
    assert s[at + 6..at + 7][0] == s[at + 6];
    assert Bytes(fs[2]) == [|e.name|] && Bytes(fs[4]) == e.name;
  }

  predicate AllGood(es: seq<DirEntry>) { forall i :: 0 <= i < |es| ==> GoodEntry(es[i]) }

  /** A directory written as a list of records. */
  function DirBytes(es: seq<DirEntry>): seq<Byte>
    requires AllGood(es)
  {
    if es == [] then [] else EntryBytes(es[0]) + DirBytes(es[1..])
  }

  /** From position `o` on, no record crosses the end of a block. */
  predicate InBlocks(es: seq<DirEntry>, bs: nat, o: nat)
    requires bs >= 1
    decreases es
  {
    es == [] || (o % bs + es[0].recLen <= bs && InBlocks(es[1..], bs, o + es[0].recLen))
  }

  function RecordsOf(es: seq<DirEntry>): seq<Record> {
    if es == [] then [] else [Record(es[0].inode, es[0].recLen, es[0].name)] + RecordsOf(es[1..])
  }

  /** The records written are exactly the records read, in order. */
  lemma {:induction false} DirWritten(before: seq<Byte>, es: seq<DirEntry>, bs: nat)
    requires bs >= 1 && AllGood(es) && InBlocks(es, bs, |before|)
    ensures var s := before + DirBytes(es);
            Tiled(s, bs, |before|) && Records(s, bs, |before|) == RecordsOf(es)
    decreases es
  {
    hide Struct, ParseRecord, HasRecord, Holds, EntryBytes, EntryFields;
    var s := before + DirBytes(es);
    if es == [] {
      assert s == before;
    } else {
      var e, rest := es[0], DirBytes(es[1..]);
      EntryOffsets(e);
      var next := before + EntryBytes(e);
      assert s == next + rest;
      EntryIn(before, e, rest);
      RecordWritten(s, |before|, e);
      DirWritten(next, es[1..], bs);
    }
  }

  lemma {:induction false} EntryIn(before: seq<Byte>, e: DirEntry, rest: seq<Byte>)
    requires GoodEntry(e)
    ensures Holds(before + EntryBytes(e) + rest, |before|, Write(EntryFields(e)))
  {
    hide Struct, EntryFields, Holds;
    var w := Write(EntryFields(e));
    LastPart(before, EntryBytes(e));
    HoldsFront(before + EntryBytes(e), rest, |before|, EntryBytes(e));
    HoldsPrefix(before + EntryBytes(e) + rest, |before|, EntryBytes(e), w);
  }
}
