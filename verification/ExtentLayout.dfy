/** Extent trees as they lie on the disk (structs of fuse/types/ext4_extents.h),
    and that the model reads back the tree that was laid out. */
module ExtentLayout {
  import opened Machine
  import opened Disk
  import opened Layout
  import opened Extents
  import opened ExtentReader

  /** A tree with the members of its nodes that carry no mapping, and the block
      each node is in. */
  datatype Laid =
    | LaidLeaf(max: nat, generation: nat, extents: seq<Extent>)
    | LaidIndex(max: nat, generation: nat, kids: seq<LaidKid>)

  datatype LaidKid = LaidKid(key: nat, block: nat, unused: nat, sub: Laid)

  function TreeFrom(p: Laid): Tree
    decreases p, 1
  {
    match p
    case LaidLeaf(_, _, es) => Leaf(es)
    case LaidIndex(_, _, kids) => Index(KidsFrom(kids))
  }

  function KidsFrom(kids: seq<LaidKid>): seq<Child>
    decreases kids, 0
  {
    if kids == [] then []
    else
      assert kids[0].sub < kids[0];
      [Child(kids[0].key, TreeFrom(kids[0].sub))] + KidsFrom(kids[1..])
  }

  // ---- The structs ----

  /** `struct ext4_extent_header`. */
  function HeaderFields(entries: nat, max: nat, depth: nat, generation: nat): (fs: seq<Field>)
    ensures |fs| == 5
  {
    [F16(0xf30a), F16(entries), F16(max), F16(depth), F32(generation)]
  }

  /** `struct ext4_extent`. */
  function ExtentFields(e: Extent): (fs: seq<Field>)
    ensures |fs| == 4
  {
    [F32(e.first), F16(e.len), F16(0), F32(e.start)]
  }

  /** `struct ext4_extent_idx`. */
  function IndexFields(k: LaidKid): (fs: seq<Field>)
    ensures |fs| == 4
  {
    [F32(k.key), F32(k.block), F16(0), F16(k.unused)]
  }

  function NodeEntries(p: Laid): seq<seq<Field>> {
    match p
    case LaidLeaf(_, _, es) => seq(|es|, i requires 0 <= i < |es| => ExtentFields(es[i]))
    case LaidIndex(_, _, kids) => seq(|kids|, i requires 0 <= i < |kids| => IndexFields(kids[i]))
  }

  function Header(p: Laid, depth: nat): seq<Field> {
    HeaderFields(|NodeEntries(p)|, p.max, depth, p.generation)
  }

  /** The bytes of a node: its header, then its entries. */
  function NodeImage(p: Laid, depth: nat): seq<Byte> {
    Write(Header(p, depth)) + Array(NodeEntries(p), |NodeEntries(p)|)
  }

  /** All members fit their widths. */
  predicate InWidth(p: Laid, depth: nat) {
    && |NodeEntries(p)| < 0x1_0000 && p.max < 0x1_0000 && depth < 0x1_0000 && p.generation < TWO32
    && match p
       case LaidLeaf(_, _, es) =>
         forall i :: 0 <= i < |es| ==> es[i].first < TWO32 && es[i].len < 0x1_0000 && es[i].start < TWO32
       case LaidIndex(_, _, kids) =>
         forall i :: 0 <= i < |kids| ==> kids[i].key < TWO32 && kids[i].block < TWO32 && kids[i].unused < 0x1_0000
  }

  /** Below the node `p` of the given depth, every node lies in its block. */
  ghost predicate Placed(disk: Image, bs: nat, p: Laid, depth: nat)
    decreases depth
  {
    && InWidth(p, depth)
    && match p
       case LaidLeaf(_, _, _) => depth == 0
       case LaidIndex(_, _, kids) =>
         && depth > 0
         && forall i :: 0 <= i < |kids| ==>
              Holds(disk, kids[i].block * bs, NodeImage(kids[i].sub, depth - 1)) && Placed(disk, bs, kids[i].sub, depth - 1)
  }

  // ---- Reading the members ----

  lemma {:induction false} HeaderLength(n: nat, max: nat, depth: nat, generation: nat)
    ensures var fs := HeaderFields(n, max, depth, generation);
            |Write(fs)| == 12 && Offset(fs, 0) == 0 && Offset(fs, 1) == 2 && Offset(fs, 3) == 6
  {
    hide Struct, Bytes;
    var fs := HeaderFields(n, max, depth, generation);
    assert Offset(fs, 1) == 2;
    assert Offset(fs, 2) == 4;
    assert Offset(fs, 3) == 6;
    assert Offset(fs, 4) == 8;
    StructLength(fs, 5);
  }

  lemma {:induction false} ReadHeader(node: seq<Byte>, n: nat, max: nat, depth: nat, generation: nat)
    requires n < 0x1_0000 && depth < 0x1_0000
    requires Holds(node, 0, Write(HeaderFields(n, max, depth, generation)))
    ensures |node| >= 12 && LE16(node, 0) == EXT_MAGIC && Entries(node) == n && Depth(node) == depth
  {
    hide Struct, Bytes, LE16, Offset;
    var fs := HeaderFields(n, max, depth, generation);
    HeaderLength(n, max, depth, generation);
    ReadMember(node, 0, fs, 5, 0);
    ReadMember(node, 0, fs, 5, 1);
    ReadMember(node, 0, fs, 5, 3);
  }

  lemma {:induction false} EntryLength(fs: seq<Field>)
    requires (exists e :: fs == ExtentFields(e)) || (exists k :: fs == IndexFields(k))
    ensures |Write(fs)| == 12 && Offset(fs, 0) == 0 && Offset(fs, 1) == 4
    ensures (exists e :: fs == ExtentFields(e)) ==> Offset(fs, 2) == 6 && Offset(fs, 3) == 8
    ensures (exists k :: fs == IndexFields(k)) ==> Offset(fs, 2) == 8
  {
    hide Struct, Bytes;
    assert Offset(fs, 1) == 4;
    assert Offset(fs, 3) == Offset(fs, 2) + SizeOf(fs[2]);
    StructLength(fs, 4);
  }

  lemma {:induction false} ReadExtent(node: seq<Byte>, i: nat, e: Extent)
    requires NodeFits(node) && i < Entries(node)
    requires e.first < TWO32 && e.len < 0x1_0000 && e.start < TWO32
    requires Holds(node, 12 + 12 * i, Write(ExtentFields(e)))
    ensures ExtentAt(node, i) == e && ExtentHigh(node, i) == 0
  {
    hide Struct, Bytes, LE16, LE32, Offset, Holds;
    var fs, at := ExtentFields(e), 12 + 12 * i;
    EntryLength(fs);
    ReadMember(node, at, fs, 4, 0);
    ReadMember(node, at, fs, 4, 1);
    ReadMember(node, at, fs, 4, 2);
    ReadMember(node, at, fs, 4, 3);
  }

  lemma {:induction false} ReadIndex(node: seq<Byte>, i: nat, k: LaidKid)
    requires NodeFits(node) && i < Entries(node)
    requires k.key < TWO32 && k.block < TWO32
    requires Holds(node, 12 + 12 * i, Write(IndexFields(k)))
    ensures KeyAt(node, i) == k.key && ChildBlock(node, i) == k.block && ChildHigh(node, i) == 0
  {
    hide Struct, Bytes, LE16, LE32, Offset, Holds;
    var fs, at := IndexFields(k), 12 + 12 * i;
    EntryLength(fs);
    ReadMember(node, at, fs, 4, 0);
    ReadMember(node, at, fs, 4, 1);
    ReadMember(node, at, fs, 4, 2);
  }

  // ---- Reading a node ----

  lemma {:induction false} EntriesEven(p: Laid)
    ensures Even(NodeEntries(p), 12)
  {
    hide Struct, Offset;
    var es := NodeEntries(p);
    forall i | 0 <= i < |es| ensures |Write(es[i])| == 12 {
      EntryLength(es[i]);
    }
  }

  lemma {:induction false} ImageLength(p: Laid, depth: nat)
    ensures |NodeImage(p, depth)| == 12 + 12 * |NodeEntries(p)|
  {
    hide Struct, Array, NodeEntries;
    HeaderLength(|NodeEntries(p)|, p.max, depth, p.generation);
    EntriesEven(p);
    ArrayLength(NodeEntries(p), 12, |NodeEntries(p)|);
  }

  /** A node that starts with the image of `p` has its header and entries. */
  lemma {:induction false} ImageHeader(p: Laid, depth: nat, node: seq<Byte>)
    requires InWidth(p, depth) && NodeImage(p, depth) <= node
    ensures WellHeaded(node) && Entries(node) == |NodeEntries(p)| && Depth(node) == depth
  {
    hide Struct, Array, NodeEntries, LE16;
    var head, n := Write(Header(p, depth)), |NodeEntries(p)|;
    ImageLength(p, depth);
    HeaderLength(n, p.max, depth, p.generation);
    assert node[0..12] == head;
    ReadHeader(node, n, p.max, depth, p.generation);
  }

  lemma {:induction false} ImageEntry(p: Laid, depth: nat, node: seq<Byte>, i: nat)
    requires NodeImage(p, depth) <= node && i < |NodeEntries(p)|
    ensures Holds(node, 12 + 12 * i, Write(NodeEntries(p)[i]))
  {
    hide Struct, Array, NodeEntries, Holds;
    var head, es := Write(Header(p, depth)), NodeEntries(p);
    HeaderLength(|es|, p.max, depth, p.generation);
    EntriesEven(p);
    ElementAt(es, 12, |es|, i);
    LastPart(head, Array(es, |es|));
    HoldsPart(head + Array(es, |es|), 12, Array(es, |es|), 12 * i, Write(es[i]));
    WholeHolds(node, NodeImage(p, depth));
    HoldsPart(node, 0, NodeImage(p, depth), 12 + 12 * i, Write(es[i]));
  }

  lemma {:induction false} WholeHolds(s: seq<Byte>, part: seq<Byte>)
    requires part <= s
    ensures Holds(s, 0, part)
  {
  }

  /** A node in its block is read as its image, no more and no less. */
  lemma {:induction false} NodeRead(disk: Image, bs: nat, block: nat, p: Laid, depth: nat)
    requires InWidth(p, depth) && Holds(disk, block * bs, NodeImage(p, depth))
    ensures ReadNode(disk, bs, block) == Ok(NodeImage(p, depth))
  {
    hide NodeImage, NodeEntries, LE16;
    var image, at := NodeImage(p, depth), block * bs;
    ImageLength(p, depth);
    ImageHeader(p, depth, image);
    assert disk[at..at + |image|] == image;
    var header := disk[at..at + 12];
    SameHeader(header, image, disk, at);
  }

  lemma {:induction false} SameHeader(header: seq<Byte>, image: seq<Byte>, disk: Image, at: nat)
    requires |image| >= 12 && Holds(disk, at, image) && header == disk[at..at + 12]
    ensures Entries(header) == Entries(image)
  {
    assert image[2] == disk[at..at + |image|][2] && image[3] == disk[at..at + |image|][3];
  }

  // ---- Main result ----

  /** A tree of any depth that is laid out as the structs say, its root at the
      start of `node`, is the tree that is read. */
  lemma {:induction false} StoredDecodes(disk: Image, bs: nat, p: Laid, depth: nat, node: seq<Byte>)
    requires Placed(disk, bs, p, depth) && NodeImage(p, depth) <= node
    ensures WellHeaded(node) && Depth(node) == depth
    ensures Decode(disk, bs, node) == Some(TreeFrom(p))
    decreases depth, 0x1_0000
  {
    hide NodeImage, LE16, LE32, DecodeKids, ExtentAt, ExtentHigh, KidsFrom, ReadNode;
    ImageHeader(p, depth, node);
    match p
    case LaidLeaf(_, _, es) =>
      forall i | 0 <= i < |es| ensures ExtentAt(node, i) == es[i] && ExtentHigh(node, i) == 0 {
        ImageEntry(p, depth, node, i);
        ReadExtent(node, i, es[i]);
      }
      assert LeafExtents(node) == es;
    case LaidIndex(_, _, kids) =>
      StoredKids(disk, bs, p, depth, node, 0);
      assert kids[0..] == kids;
  }

  lemma {:induction false} StoredKids(disk: Image, bs: nat, p: Laid, depth: nat, node: seq<Byte>, i: nat)
    requires p.LaidIndex? && Placed(disk, bs, p, depth) && NodeImage(p, depth) <= node && i <= |p.kids|
    requires WellHeaded(node) && Entries(node) == |p.kids| && Depth(node) == depth > 0
    ensures DecodeKids(disk, bs, node, i) == Some(KidsFrom(p.kids[i..]))
    decreases depth, |p.kids| - i
  {
    hide NodeImage, LE16, LE32, Decode, KeyAt, ChildBlock, ChildHigh, ReadNode, TreeFrom;
    if i < |p.kids| {
      var k := p.kids[i];
      ImageEntry(p, depth, node, i);
      ReadIndex(node, i, k);
      NodeRead(disk, bs, k.block, k.sub, depth - 1);
      StoredDecodes(disk, bs, k.sub, depth - 1, NodeImage(k.sub, depth - 1));
      StoredKids(disk, bs, p, depth, node, i + 1);
      assert p.kids[i..][0] == k && p.kids[i..][1..] == p.kids[i + 1..];
    }
  }
}
