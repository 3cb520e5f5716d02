/** The on-disk form of extent nodes and the recursive search loops of
    fuse/extents.c that run over it. */
module ExtentReader {
  import opened Machine
  import opened Disk
  import opened Extents

  const EXT_MAGIC: nat := 0xf30a
  const HEADER: nat := 12
  const ENTRY: nat := 12

  /** A node holds all the entries it announces. */
  predicate NodeFits(node: seq<Byte>) { |node| >= HEADER && HEADER + ENTRY * LE16(node, 2) <= |node| }

  /** It also carries the magic number. */
  predicate WellHeaded(node: seq<Byte>) { NodeFits(node) && LE16(node, 0) == EXT_MAGIC }

  function Entries(node: seq<Byte>): nat
    requires |node| >= HEADER
  {
    LE16(node, 2)
  }

  function Depth(node: seq<Byte>): nat
    requires |node| >= HEADER
  {
    LE16(node, 6)
  }

  /** Entry `i` of a leaf; the high half of its physical block is separate. */
  function ExtentAt(node: seq<Byte>, i: nat): Extent
    requires NodeFits(node) && i < Entries(node)
  {
    var at := HEADER + ENTRY * i;
    Extent(LE32(node, at), LE16(node, at + 4), LE32(node, at + 8))
  }

  function ExtentHigh(node: seq<Byte>, i: nat): nat
    requires NodeFits(node) && i < Entries(node)
  {
    LE16(node, HEADER + ENTRY * i + 6)
  }

  function KeyAt(node: seq<Byte>, i: nat): nat
    requires NodeFits(node) && i < Entries(node)
  {
    LE32(node, HEADER + ENTRY * i)
  }

  function ChildBlock(node: seq<Byte>, i: nat): nat
    requires NodeFits(node) && i < Entries(node)
  {
    LE32(node, HEADER + ENTRY * i + 4)
  }

  function ChildHigh(node: seq<Byte>, i: nat): nat
    requires NodeFits(node) && i < Entries(node)
  {
    LE16(node, HEADER + ENTRY * i + 8)
  }

  /** `extent_get_extents_in_block`: the header first, then as much of the
      block as the header's entry count asks for. */
  function ReadNode(disk: Image, bs: nat, block: nat): (r: Outcome<seq<Byte>>)
    ensures r.Ok? ==> NodeFits(r.value)
  {
    var header :- DiskRead(disk, block * bs, HEADER);
    var node :- DiskRead(disk, block * bs, HEADER + ENTRY * Entries(header));
    assert node[2] == header[2] && node[3] == header[3];
    Ok(node)
  }

  // ---- The lookup on raw nodes ----

  /** The extents a leaf node lists. */
  function LeafExtents(node: seq<Byte>): (es: seq<Extent>)
    requires NodeFits(node)
    ensures |es| == Entries(node)
  {
    seq(Entries(node), i requires 0 <= i < Entries(node) => ExtentAt(node, i))
  }

  /** The leaf search: it aborts iff an entry it gets to has a high half. */
  function LeafAt(node: seq<Byte>, l: nat, len0: nat): Outcome<Run>
    requires NodeFits(node)
  {
    if forall i :: 0 <= i < Entries(node) && i <= Skip(LeafExtents(node), l) ==> ExtentHigh(node, i) == 0 then
      Ok(LeafLookup(LeafExtents(node), l, len0))
    else Abort
  }

  /** `n` entries, and no more, start at or before `l`. */
  predicate Leading(node: seq<Byte>, l: nat, n: nat)
    requires NodeFits(node)
  {
    && n <= Entries(node)
    && (forall i :: 0 <= i < n ==> KeyAt(node, i) <= l)
    && (n < Entries(node) ==> KeyAt(node, n) > l)
  }

  function LeadFrom(node: seq<Byte>, l: nat, i: nat): (n: nat)
    requires NodeFits(node) && i <= Entries(node)
    requires forall j :: 0 <= j < i ==> KeyAt(node, j) <= l
    ensures Leading(node, l, n)
    decreases Entries(node) - i
  {
    if i == Entries(node) || KeyAt(node, i) > l then i else LeadFrom(node, l, i + 1)
  }

  /** The entries the index loop gets to have no high half. */
  predicate LowChildren(node: seq<Byte>, n: nat)
    requires NodeFits(node)
  {
    forall i :: 0 <= i < Entries(node) && i <= n ==> ChildHigh(node, i) == 0
  }

  /** `extent_get_pblock` on a raw node. Only the nodes on the way matter. */
  function NodeLookup(disk: Image, bs: nat, node: seq<Byte>, l: nat, len0: nat): Outcome<Run>
    requires NodeFits(node)
    decreases Depth(node)
  {
    if LE16(node, 0) != EXT_MAGIC then Abort
    else if Depth(node) == 0 then LeafAt(node, l, len0)
    else
      var n := LeadFrom(node, l, 0);
      if !LowChildren(node, n) || n == 0 then Abort
      else
        var sub :- ReadNode(disk, bs, ChildBlock(node, n - 1));
        if Depth(sub) < Depth(node) then NodeLookup(disk, bs, sub, l, len0) else Abort
  }

  /** On the way to `l` every node is shallower than the one above it, so the
      recursion ends. */
  predicate Descends(disk: Image, bs: nat, node: seq<Byte>, l: nat)
    requires NodeFits(node)
    decreases Depth(node)
  {
    LE16(node, 0) == EXT_MAGIC && Depth(node) > 0 ==>
      var n := LeadFrom(node, l, 0);
      LowChildren(node, n) && n > 0 ==>
        var sub := ReadNode(disk, bs, ChildBlock(node, n - 1));
        sub.Ok? ==> Depth(sub.value) < Depth(node) && Descends(disk, bs, sub.value, l)
  }

  // ---- The tree a node stores ----

  /** The tree below `node`, if it is one: block numbers fit in 32 bits and
      each child node is readable, well-headed and one level shallower. */
  function Decode(disk: Image, bs: nat, node: seq<Byte>): Option<Tree>
    requires WellHeaded(node)
    decreases Depth(node), Entries(node) + 1
  {
    if Depth(node) == 0 then
      if forall i :: 0 <= i < Entries(node) ==> ExtentHigh(node, i) == 0 then
        Some(Leaf(LeafExtents(node)))
      else None
    else
      match DecodeKids(disk, bs, node, 0)
      case None => None
      case Some(kids) => Some(Index(kids))
  }

  function DecodeKids(disk: Image, bs: nat, node: seq<Byte>, i: nat): Option<seq<Child>>
    requires WellHeaded(node) && Depth(node) > 0 && i <= Entries(node)
    decreases Depth(node), Entries(node) - i
  {
    if i == Entries(node) then Some([])
    else if ChildHigh(node, i) != 0 then None
    else match ReadNode(disk, bs, ChildBlock(node, i))
      case Abort => None
      case Ok(sub) =>
        if !WellHeaded(sub) || Depth(sub) + 1 != Depth(node) then None
        else match Decode(disk, bs, sub)
          case None => None
          case Some(tree) =>
            match DecodeKids(disk, bs, node, i + 1)
            case None => None
            case Some(rest) => Some([Child(KeyAt(node, i), tree)] + rest)
  }

  lemma {:induction false} KidsMeaning(disk: Image, bs: nat, node: seq<Byte>, i: nat, j: nat)
    requires WellHeaded(node) && Depth(node) > 0 && i <= j < Entries(node)
    requires DecodeKids(disk, bs, node, i).Some?
    ensures var kids := DecodeKids(disk, bs, node, i).value;
            && |kids| == Entries(node) - i
            && kids[j - i].key == KeyAt(node, j)
            && ChildHigh(node, j) == 0
            && ReadNode(disk, bs, ChildBlock(node, j)).Ok?
            && var sub := ReadNode(disk, bs, ChildBlock(node, j)).value;
               && WellHeaded(sub) && Depth(sub) + 1 == Depth(node)
               && Decode(disk, bs, sub) == Some(kids[j - i].tree)
    decreases Entries(node) - i
  {
    KidsLength(disk, bs, node, i);
    if i < j {
      KidsMeaning(disk, bs, node, i + 1, j);
    }
  }

  lemma {:induction false} KidsLength(disk: Image, bs: nat, node: seq<Byte>, i: nat)
    requires WellHeaded(node) && Depth(node) > 0 && i <= Entries(node)
    requires DecodeKids(disk, bs, node, i).Some?
    ensures |DecodeKids(disk, bs, node, i).value| == Entries(node) - i
    decreases Entries(node) - i
  {
    if i < Entries(node) {
      KidsLength(disk, bs, node, i + 1);
    }
  }

  lemma {:induction false} DecodeMeaning(disk: Image, bs: nat, node: seq<Byte>)
    requires WellHeaded(node) && Decode(disk, bs, node).Some?
    ensures Depth(node) == 0 ==>
              && (forall i :: 0 <= i < Entries(node) ==> ExtentHigh(node, i) == 0)
              && Decode(disk, bs, node).value == Leaf(LeafExtents(node))
    ensures Depth(node) > 0 ==>
              && DecodeKids(disk, bs, node, 0).Some?
              && Decode(disk, bs, node).value == Index(DecodeKids(disk, bs, node, 0).value)
  {
    hide LE16, LE32, DecodeKids, ExtentAt, ExtentHigh;
  }

  /** Leading keys are what routing on the decoded entries counts. */
  lemma {:induction false} LeadingIsRoute(kids: seq<Child>, l: nat, n: nat)
    requires n <= |kids| && (forall i :: 0 <= i < n ==> kids[i].key <= l) && (n < |kids| ==> kids[n].key > l)
    ensures Route(kids, l) == n
  {
    if n > 0 {
      LeadingIsRoute(kids[1..], l, n - 1);
    }
  }

  lemma {:induction false} KidsRoute(disk: Image, bs: nat, node: seq<Byte>, l: nat)
    requires WellHeaded(node) && Depth(node) > 0 && DecodeKids(disk, bs, node, 0).Some?
    ensures LowChildren(node, Entries(node))
    ensures |DecodeKids(disk, bs, node, 0).value| == Entries(node)
    ensures Route(DecodeKids(disk, bs, node, 0).value, l) == LeadFrom(node, l, 0)
  {
    hide LE16, LE32, DecodeKids, ReadNode, KeyAt, ChildHigh, ChildBlock, LeadFrom, Decode, Route;
    var kids := DecodeKids(disk, bs, node, 0).value;
    KidsLength(disk, bs, node, 0);
    forall j | 0 <= j < Entries(node) ensures kids[j].key == KeyAt(node, j) && ChildHigh(node, j) == 0 {
      KidsMeaning(disk, bs, node, 0, j);
    }
    LeadingIsRoute(kids, l, LeadFrom(node, l, 0));
  }

  /** On nodes that store a tree, the raw lookup is the lookup on that tree. */
  lemma {:induction false} LookupDecoded(disk: Image, bs: nat, node: seq<Byte>, l: nat, len0: nat)
    requires WellHeaded(node) && Decode(disk, bs, node).Some?
    ensures Descends(disk, bs, node, l)
    ensures NodeLookup(disk, bs, node, l, len0) == TreeLookup(Decode(disk, bs, node).value, l, len0)
    decreases Depth(node)
  {
    hide LE16, LE32, Decode, DecodeKids, ReadNode, KeyAt, ChildHigh, ChildBlock, LeadFrom, LeafLookup, Route, ExtentHigh, Skip;
    DecodeMeaning(disk, bs, node);
    if Depth(node) > 0 {
      KidsRoute(disk, bs, node, l);
      var n := LeadFrom(node, l, 0);
      if n > 0 {
        KidsMeaning(disk, bs, node, 0, n - 1);
        LookupDecoded(disk, bs, ReadNode(disk, bs, ChildBlock(node, n - 1)).value, l, len0);
      }
    }
  }

  // ---- The search loops ----

  /** `extent_get_block_from_ees` over the entries of a leaf node. */
  method BlockFromExtents(node: seq<Byte>, l: nat, len0: nat) returns (r: Outcome<Run>)
    requires NodeFits(node) && l < TWO32
    ensures r == LeafAt(node, l, len0)
  {
    hide LE16, LE32, U32, ExtentHigh;
    ghost var es := LeafExtents(node);
    var len := len0;
    var index, offset, i := 0, 0, 0;
    assert es[0..] == es;
    while i < Entries(node)
      invariant 0 <= i <= Entries(node)
      invariant Skip(es, l) == i + Skip(es[i..], l)
      invariant forall j :: 0 <= j < i ==> ExtentHigh(node, j) == 0
      invariant len == len0
    {
      var e := ExtentAt(node, i);
      assert es[i..][0] == e && es[i..][1..] == es[i + 1..];
      if ExtentHigh(node, i) != 0 {
        return Abort;
      }
      if U32(e.first + e.len) > l {
        index, offset := i, U32(l - e.first);
        len := U32(e.first + e.len - l);
        break;
      }
      i := i + 1;
    }
    if i == Entries(node) {
      r := Ok(Run(0, len));
    } else {
      r := Ok(Run(U32(ExtentAt(node, index).start + offset), len));
    }
  }

  /** The index loop: one more than the position of the entry to follow. It
      aborts iff an entry it gets to has a high half. */
  method FindChild(node: seq<Byte>, l: nat) returns (r: Outcome<nat>)
    requires NodeFits(node)
    ensures r.Ok? ==> Leading(node, l, r.value) && LowChildren(node, r.value)
    ensures r.Abort? ==>
              exists i :: 0 <= i < Entries(node) && ChildHigh(node, i) != 0
                          && forall j :: 0 <= j < i ==> KeyAt(node, j) <= l
  {
    hide LE16, LE32, KeyAt, ChildHigh;
    var chosen := 0;
    var i := 0;
    while i < Entries(node)
      invariant 0 <= i <= Entries(node) && chosen == i
      invariant forall j :: 0 <= j < i ==> KeyAt(node, j) <= l && ChildHigh(node, j) == 0
    {
      if ChildHigh(node, i) != 0 {
        return Abort;
      }
      if KeyAt(node, i) > l {
        break;
      }
      chosen := i + 1;
      i := i + 1;
    }
    r := Ok(chosen);
  }

  lemma {:induction false} LeadingUnique(node: seq<Byte>, l: nat, n: nat, m: nat)
    requires NodeFits(node) && Leading(node, l, n) && Leading(node, l, m)
    ensures n == m
  {
    hide LE16, LE32, KeyAt;
  }

  /** `extent_get_pblock`: recursive descent that ends at depth 0. */
  method GetPblock(disk: Image, bs: nat, node: seq<Byte>, l: nat, len0: nat) returns (r: Outcome<Run>)
    requires NodeFits(node) && l < TWO32 && Descends(disk, bs, node, l)
    ensures r == NodeLookup(disk, bs, node, l, len0)
    decreases Depth(node)
  {
    hide LE16, LE32, LeafAt, KeyAt, ChildBlock, ChildHigh, ReadNode, LeadFrom;
    if LE16(node, 0) != EXT_MAGIC {
      return Abort;
    }
    if Depth(node) == 0 {
      r := BlockFromExtents(node, l, len0);
    } else {
      var chosen := FindChild(node, l);
      ghost var n := LeadFrom(node, l, 0);
      if chosen.Abort? {
        ghost var i :| 0 <= i < Entries(node) && ChildHigh(node, i) != 0
                       && forall j :: 0 <= j < i ==> KeyAt(node, j) <= l;
        assert n < Entries(node) ==> KeyAt(node, n) > l;
        assert i <= n;
        return Abort;
      }
      LeadingUnique(node, l, n, chosen.value);
      if chosen.value == 0 {
        return Abort;
      }
      var sub := ReadNode(disk, bs, ChildBlock(node, chosen.value - 1));
      if sub.Abort? {
        return Abort;
      }
      r := GetPblock(disk, bs, sub.value, l, len0);
    }
  }
}
