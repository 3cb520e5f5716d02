/** Logical to physical block mapping of an inode (fuse/inode.c): extents, or
    direct, indirect, double- and triple-indirect index blocks. */
module BlockMap {
  import opened Machine
  import opened Disk
  import opened Extents
  import opened ExtentReader

  const NDIR: nat := 12

  /** The fields of an on-disk inode the read path looks at. */
  datatype InodeData = InodeData(mode: nat, size: nat, extents: bool, iblock: seq<Byte>)

  type Inode = i: InodeData | |i.iblock| == 60 && i.size < TWO64 && i.mode < 0x1_0000
    witness InodeData(0, 0, false, seq(60, _ => 0))

  /** A 32-bit block size that holds a whole number of block pointers. */
  predicate IsBlockSize(bs: nat) { 4 <= bs < TWO32 && bs % 4 == 0 }

  /** `BYTES2BLOCKS`. */
  function BlocksFor(bytes: nat, bs: nat): nat
    requires bs > 0
  {
    bytes / bs + if bytes % bs != 0 then 1 else 0
  }

  lemma {:induction false} SquareFits(a: nat)
    requires 1 <= a < 0x4000_0000
    ensures a <= a * a < TWO63 / 4 && U64(a * a) == a * a
  {
    MulMonotone(1, a, a);
    MulMonotone(a, 0x4000_0000, a);
  }

  // ---- What the code computes ----

  /** `__inode_get_data_pblock_ind`. */
  function IndLookup(disk: Image, bs: nat, l: nat, block: nat): Outcome<nat>
    requires IsBlockSize(bs)
  {
    if l >= bs / 4 then Abort else DiskReadU32(disk, block * bs + l * 4)
  }

  /** `__inode_get_data_pblock_dind`. */
  function DindLookup(disk: Image, bs: nat, l: nat, block: nat): Outcome<nat>
    requires IsBlockSize(bs)
  {
    var a := bs / 4;
    if l >= U64(a * a) then Abort else
    var index :- DiskReadU32(disk, block * bs + U32(l / a * 4));
    IndLookup(disk, bs, l % a, index)
  }

  /** `__inode_get_data_pblock_tind`. */
  function TindLookup(disk: Image, bs: nat, l: nat, block: nat): Outcome<nat>
    requires IsBlockSize(bs)
  {
    var a := bs / 4;
    var dind := U64(a * a);
    assert dind > 0 by { SquareFits(a); }
    if l >= U64(dind * a) then Abort else
    var index :- DiskReadU32(disk, block * bs + U32(l / dind * 4));
    DindLookup(disk, bs, l % dind, index)
  }

  function Pointer(inode: Inode, i: nat): nat
    requires i < 15
  {
    LE32(inode.iblock, 4 * i)
  }

  // The limits of the four ranges, `MAX_IND_BLOCK` and so on: 64-bit products.

  function MaxInd(bs: nat): nat { NDIR + bs / 4 }

  function MaxDind(bs: nat): nat { U64(MaxInd(bs) + U64(bs / 4 * (bs / 4))) }

  function MaxTind(bs: nat): nat { U64(MaxDind(bs) + U64(U64(bs / 4 * (bs / 4)) * (bs / 4))) }

  /** The index-block branch of `inode_get_data_pblock`. */
  function PointerLookup(disk: Image, bs: nat, inode: Inode, l: nat): Outcome<nat>
    requires IsBlockSize(bs)
  {
    if l > BlocksFor(inode.size, bs) then Abort
    else if l < NDIR then Ok(Pointer(inode, l))
    else if l < MaxInd(bs) then IndLookup(disk, bs, l - NDIR, Pointer(inode, 12))
    else if l < MaxDind(bs) then DindLookup(disk, bs, l - MaxInd(bs), Pointer(inode, 13))
    else if l < MaxTind(bs) then TindLookup(disk, bs, l - MaxDind(bs), Pointer(inode, 14))
    else Abort
  }

  // ---- The flattened pointer tree ----

  function Power(a: nat, n: nat): (p: nat)
    ensures a > 0 ==> p > 0
  {
    if n == 0 then 1 else a * Power(a, n - 1)
  }

  /** Slot `i` of an index block. */
  function Slot(disk: Image, bs: nat, block: nat, i: nat): Outcome<nat> {
    DiskReadU32(disk, block * bs + 4 * i)
  }

  /** The blocks below a pointer at the given level, in file order. A zero
      pointer is a hole as wide as the subtree it stands for. */
  function Expand(disk: Image, bs: nat, ptr: Outcome<nat>, level: nat): (s: seq<Outcome<nat>>)
    ensures |s| == Power(bs / 4, level)
    decreases level, 0
  {
    if level == 0 then [ptr]
    else if ptr.Abort? || ptr.value == 0 then seq(Power(bs / 4, level), _ => ptr)
    else ExpandSlots(disk, bs, ptr.value, level - 1, bs / 4)
  }

  /** What the first `n` slots of an index block stand for. */
  function ExpandSlots(disk: Image, bs: nat, block: nat, level: nat, n: nat): (s: seq<Outcome<nat>>)
    ensures |s| == n * Power(bs / 4, level)
    decreases level, n + 1
  {
    if n == 0 then []
    else ExpandSlots(disk, bs, block, level, n - 1) + Expand(disk, bs, Slot(disk, bs, block, n - 1), level)
  }

  /** Every block of an indexed file, in order. */
  function Slots(disk: Image, bs: nat, inode: Inode): seq<Outcome<nat>> {
    seq(12, i requires 0 <= i < 12 => Ok(Pointer(inode, i)))
    + Expand(disk, bs, Ok(Pointer(inode, 12)), 1)
    + Expand(disk, bs, Ok(Pointer(inode, 13)), 2)
    + Expand(disk, bs, Ok(Pointer(inode, 14)), 3)
  }

  function Width(bs: nat): nat {
    12 + Power(bs / 4, 1) + Power(bs / 4, 2) + Power(bs / 4, 3)
  }

  /** Some index block on the way to block `i` below `ptr` has number 0. */
  predicate ZeroIndex(disk: Image, bs: nat, ptr: Outcome<nat>, level: nat, i: nat)
    requires bs >= 4
    decreases level
  {
    level > 0 && ptr.Ok? &&
    (ptr.value == 0 ||
     var w := Power(bs / 4, level - 1);
     ZeroIndex(disk, bs, Slot(disk, bs, ptr.value, i / w), level - 1, i % w))
  }

  /** The level and the offset of block `l` within its subtree. */
  function Locate(bs: nat, l: nat): (p: (nat, nat))
    ensures p.0 <= 3
  {
    var a := bs / 4;
    if l < NDIR then (0, l)
    else if l < NDIR + a then (1, l - NDIR)
    else if l < NDIR + a + a * a then (2, l - NDIR - a)
    else (3, l - NDIR - a - a * a)
  }

  /** Some index block on the way to logical block `l` has number 0. */
  predicate ZeroOnPath(disk: Image, bs: nat, inode: Inode, l: nat)
    requires bs >= 4
  {
    var (level, i) := Locate(bs, l);
    0 < level && ZeroIndex(disk, bs, Ok(Pointer(inode, 11 + level)), level, i)
  }

  // ---- The descent by division and remainder is indexing ----

  /** The descent without a test for zero pointers. */
  function Descend(disk: Image, bs: nat, ptr: Outcome<nat>, level: nat, i: nat): Outcome<nat>
    requires bs >= 4
    decreases level
  {
    if level == 0 || ptr.Abort? then ptr
    else
      var w := Power(bs / 4, level - 1);
      Descend(disk, bs, Slot(disk, bs, ptr.value, i / w), level - 1, i % w)
  }

  lemma {:induction false} DivBelow(i: nat, n: nat, w: nat)
    requires w > 0 && i < n * w
    ensures i / w < n
  {
    if i / w >= n {
      assert (i / w) * w >= n * w by { MulMonotone(n, i / w, w); }
    }
  }

  lemma {:induction false} LastSlot(i: nat, n: nat, w: nat)
    requires n >= 1 && w >= 1 && (n - 1) * w <= i < n * w
    ensures i / w == n - 1 && i % w == i - (n - 1) * w
  {
    assert n * w == (n - 1) * w + w;
    ModUnique(i, n - 1, w, i - (n - 1) * w);
  }

  lemma {:induction false} ExpandSlotsAt(disk: Image, bs: nat, block: nat, level: nat, n: nat, i: nat)
    requires bs >= 4 && i < n * Power(bs / 4, level)
    ensures var w := Power(bs / 4, level);
            ExpandSlots(disk, bs, block, level, n)[i] ==
            Expand(disk, bs, Slot(disk, bs, block, i / w), level)[i % w]
  {
    hide Power, Expand, Slot;
    var w, before := Power(bs / 4, level), |ExpandSlots(disk, bs, block, level, n - 1)|;
    if i < before {
      ExpandSlotsAt(disk, bs, block, level, n - 1, i);
    } else {
      LastSlot(i, n, w);
    }
  }

  lemma {:induction false} ExpandCases(disk: Image, bs: nat, ptr: Outcome<nat>, level: nat, i: nat)
    requires bs >= 4 && i < Power(bs / 4, level)
    ensures level == 0 || ptr.Abort? || ptr.value == 0 ==> Expand(disk, bs, ptr, level)[i] == ptr
    ensures level > 0 && ptr.Ok? && ptr.value != 0 ==>
              Expand(disk, bs, ptr, level) == ExpandSlots(disk, bs, ptr.value, level - 1, bs / 4)
  {
    hide Slot, ExpandSlots;
  }

  lemma {:induction false} PowerStep(a: nat, n: nat)
    requires n > 0
    ensures Power(a, n) == a * Power(a, n - 1)
  {
  }

  /** Element `i` of the expansion is what the descent finds, or 0 below a
      zero index pointer. */
  lemma {:induction false} ExpandAt(disk: Image, bs: nat, ptr: Outcome<nat>, level: nat, i: nat)
    requires bs >= 4 && i < Power(bs / 4, level)
    ensures Expand(disk, bs, ptr, level)[i] ==
            if ZeroIndex(disk, bs, ptr, level, i) then Ok(0) else Descend(disk, bs, ptr, level, i)
    decreases level
  {
    hide Power, Expand, ExpandSlots, Slot;
    ExpandCases(disk, bs, ptr, level, i);
    if level > 0 && ptr.Ok? && ptr.value != 0 {
      var a, w := bs / 4, Power(bs / 4, level - 1);
      PowerStep(a, level);
      ExpandSlotsAt(disk, bs, ptr.value, level - 1, a, i);
      var q, r := i / w, i % w;
      ExpandAt(disk, bs, Slot(disk, bs, ptr.value, q), level - 1, r);
    }
  }

  lemma {:induction false} Powers(a: nat)
    ensures Power(a, 0) == 1 && Power(a, 1) == a && Power(a, 2) == a * a && Power(a, 3) == a * (a * a)
  {
  }

  lemma {:induction false} PowerOne(a: nat)
    ensures Power(a, 1) == a
  {
  }

  lemma {:induction false} IndIsDescend(disk: Image, bs: nat, l: nat, block: nat)
    requires IsBlockSize(bs) && l < bs / 4
    ensures IndLookup(disk, bs, l, block) == Descend(disk, bs, Ok(block), 1, l)
  {
    Powers(bs / 4);
  }

  lemma {:induction false} DescendStep(disk: Image, bs: nat, block: nat, level: nat, i: nat, w: nat)
    requires bs >= 4 && level > 0 && w == Power(bs / 4, level - 1)
    ensures var index := Slot(disk, bs, block, i / w);
            Descend(disk, bs, Ok(block), level, i) ==
            if index.Abort? then Abort else Descend(disk, bs, index, level - 1, i % w)
  {
    hide Slot, Power;
  }

  /** One step of the double-indirect lookup, without machine wrap-around. */
  lemma {:induction false} DindStep(disk: Image, bs: nat, l: nat, block: nat, a: nat)
    requires IsBlockSize(bs) && a == bs / 4 && l < a * a
    ensures var index := Slot(disk, bs, block, l / a);
            DindLookup(disk, bs, l, block) ==
            if index.Abort? then Abort else IndLookup(disk, bs, l % a, index.value)
  {
    hide IndLookup, U32, U64;
    SquareFits(a);
    DivBelow(l, a, a);
    U32Small(l / a * 4);
  }

  lemma {:induction false} DindIsDescend(disk: Image, bs: nat, l: nat, block: nat)
    requires IsBlockSize(bs) && l < bs / 4 * (bs / 4)
    ensures DindLookup(disk, bs, l, block) == Descend(disk, bs, Ok(block), 2, l)
  {
    hide IndLookup, DindLookup, Descend, Power;
    PowerOne(bs / 4);
    DindStep(disk, bs, l, block, bs / 4);
    DindParts(disk, bs, l, block, bs / 4);
  }

  lemma {:induction false} DindParts(disk: Image, bs: nat, l: nat, block: nat, w: nat)
    requires IsBlockSize(bs) && w == bs / 4 == Power(bs / 4, 1)
    ensures var index := Slot(disk, bs, block, l / w);
            Descend(disk, bs, Ok(block), 2, l) ==
            if index.Abort? then Abort else IndLookup(disk, bs, l % w, index.value)
  {
    hide IndLookup, Slot, Power, Descend;
    DescendStep(disk, bs, block, 2, l, w);
    var index, rest := Slot(disk, bs, block, l / w), l % w;
    if index.Ok? {
      IndIsDescend(disk, bs, rest, index.value);
    }
  }

  /** One step of the triple-indirect lookup, without machine wrap-around. */
  lemma {:induction false} TindStep(disk: Image, bs: nat, l: nat, block: nat, a: nat, dind: nat)
    requires IsBlockSize(bs) && a == bs / 4 < 0x1_0000 && dind == a * a > 0 && l < a * dind
    ensures var index := Slot(disk, bs, block, l / dind);
            TindLookup(disk, bs, l, block) ==
            if index.Abort? then Abort else DindLookup(disk, bs, l % dind, index.value)
  {
    TindLimit(a, dind);
    TindOffset(l, a, dind);
    var d := U64(a * a);
    assert d == dind;
    assert TindLookup(disk, bs, l, block) ==
           (var index :- DiskReadU32(disk, block * bs + U32(l / d * 4)); DindLookup(disk, bs, l % d, index));
  }

  lemma {:induction false} TindLimit(a: nat, dind: nat)
    requires 1 <= a < 0x1_0000 && dind == a * a
    ensures U64(a * a) == dind && U64(dind * a) == a * dind
  {
    CubeFits(a);
    var cube := dind * a;
    assert cube == a * dind < TWO63;
  }

  lemma {:induction false} TindOffset(l: nat, a: nat, dind: nat)
    requires 1 <= a < 0x1_0000 && 0 < dind && l < a * dind
    ensures U32(l / dind * 4) == 4 * (l / dind)
  {
    DivBelow(l, a, dind);
    var q := l / dind;
    assert q < a;
  }

  lemma {:induction false} TindIsDescend(disk: Image, bs: nat, l: nat, block: nat)
    requires IsBlockSize(bs) && bs / 4 < 0x1_0000 && l < bs / 4 * (bs / 4 * (bs / 4))
    ensures TindLookup(disk, bs, l, block) == Descend(disk, bs, Ok(block), 3, l)
  {
    hide DindLookup, TindLookup, Slot, Power, Descend;
    Powers(bs / 4);
    SquareFits(bs / 4);
    var w := Power(bs / 4, 2);
    TindStep(disk, bs, l, block, bs / 4, w);
    DescendStep(disk, bs, block, 3, l, w);
    var index, rest := Slot(disk, bs, block, l / w), l % w;
    if index.Ok? {
      DindIsDescend(disk, bs, rest, index.value);
    }
  }

  lemma {:induction false} CubeFits(a: nat)
    requires 1 <= a < 0x1_0000
    ensures a * a < TWO32 && a * a * a == a * (a * a) < TWO63
    ensures U64(a * a * a) == a * (a * a)
  {
    var q := a * a;
    assert q < TWO32 by { MulMonotone(a, 0xffff, a); }
    assert a * q <= 0xffff * q by { MulMonotone(a, 0xffff, q); }
    assert q * a == a * q;
  }

  lemma {:induction false} Ranges(bs: nat, l: nat)
    requires IsBlockSize(bs) && l < TWO32
    ensures var a := bs / 4;
            && Width(bs) == NDIR + a + a * a + a * (a * a)
            && U64(NDIR + a + U64(a * a)) == NDIR + a + a * a
            && (a >= 0x1_0000 ==> l < a * a)
            && (a < 0x1_0000 ==> U64(NDIR + a + a * a + U64(U64(a * a) * a)) == Width(bs))
  {
    hide Power, U64;
    var a := bs / 4;
    Powers(a);
    SquareFits(a);
    U64Small(NDIR + a + a * a);
    if a >= 0x1_0000 {
      MulMonotone(0x1_0000, a, a);
    } else {
      CubeFits(a);
      U64Small(NDIR + a + a * a + a * (a * a));
    }
  }

  lemma {:induction false} IndexConcat<T>(p: seq<T>, q: seq<T>, r: seq<T>, s: seq<T>, i: nat)
    requires i < |p| + |q| + |r| + |s|
    ensures (p + q + r + s)[i] ==
            if i < |p| then p[i]
            else if i < |p| + |q| then q[i - |p|]
            else if i < |p| + |q| + |r| then r[i - |p| - |q|]
            else s[i - |p| - |q| - |r|]
  {
  }

  lemma {:induction false} SlotsAt(disk: Image, bs: nat, inode: Inode, l: nat)
    requires l < Width(bs)
    ensures |Slots(disk, bs, inode)| == Width(bs)
    ensures var (level, i) := Locate(bs, l);
            if level == 0 then l < NDIR && Slots(disk, bs, inode)[l] == Ok(Pointer(inode, l))
            else
              && 1 <= level <= 3 && i < Power(bs / 4, level)
              && Slots(disk, bs, inode)[l] == Expand(disk, bs, Ok(Pointer(inode, 11 + level)), level)[i]
  {
    Powers(bs / 4);
    IndexConcat(seq(12, i requires 0 <= i < 12 => Ok(Pointer(inode, i))),
                Expand(disk, bs, Ok(Pointer(inode, 12)), 1),
                Expand(disk, bs, Ok(Pointer(inode, 13)), 2),
                Expand(disk, bs, Ok(Pointer(inode, 14)), 3), l);
  }

  /** The number of blocks a file of that many bytes takes: the least that
      holds them. */
  lemma {:induction false} BlocksForLeast(bytes: nat, bs: nat)
    requires bs > 0
    ensures bytes <= BlocksFor(bytes, bs) * bs < bytes + bs
  {
    var q, r := bytes / bs, bytes % bs;
    assert bytes == q * bs + r;
    assert (q + 1) * bs == q * bs + bs;
  }

  /** A block past the end of the file is not looked up, save the first one. */
  lemma {:induction false} PastTheFile(disk: Image, bs: nat, inode: Inode, l: nat)
    requires IsBlockSize(bs) && !inode.extents && l * bs >= inode.size + bs
    ensures PointerLookup(disk, bs, inode, l).Abort?
  {
    hide BlocksFor, IndLookup, DindLookup, TindLookup, MaxInd, MaxDind, MaxTind, Pointer;
    BlocksForLeast(inode.size, bs);
    var n := BlocksFor(inode.size, bs);
    if l <= n {
      MulMonotone(l, n, bs);
    }
  }

  /** The branch the code takes for block `l`, and the helper's argument. */
  lemma {:induction false} LookupBranch(disk: Image, bs: nat, inode: Inode, l: nat)
    requires IsBlockSize(bs) && l < TWO32 && l <= BlocksFor(inode.size, bs) && l < Width(bs)
    ensures var (level, i) := Locate(bs, l);
            PointerLookup(disk, bs, inode, l) ==
            if level == 0 then Ok(Pointer(inode, l))
            else if level == 1 then IndLookup(disk, bs, i, Pointer(inode, 12))
            else if level == 2 then DindLookup(disk, bs, i, Pointer(inode, 13))
            else TindLookup(disk, bs, i, Pointer(inode, 14))
  {
    hide IndLookup, DindLookup, TindLookup, BlocksFor, Width, Pointer;
    Ranges(bs, l);
  }

  lemma {:induction false} LocateBounds(bs: nat, l: nat)
    requires IsBlockSize(bs) && l < TWO32 && l < Width(bs)
    ensures var (level, i) := Locate(bs, l);
            var a := bs / 4;
            && (level == 1 ==> i < a)
            && (level == 2 ==> i < a * a)
            && (level == 3 ==> i < a * (a * a) && a < 0x1_0000)
  {
    Ranges(bs, l);
  }

  lemma {:induction false} LookupIsDescend(disk: Image, bs: nat, inode: Inode, l: nat)
    requires IsBlockSize(bs) && l < TWO32 && l <= BlocksFor(inode.size, bs) && l < Width(bs)
    ensures var (level, i) := Locate(bs, l);
            PointerLookup(disk, bs, inode, l) ==
            if level == 0 then Ok(Pointer(inode, l))
            else Descend(disk, bs, Ok(Pointer(inode, 11 + level)), level, i)
  {
    LookupBranch(disk, bs, inode, l);
    LocateBounds(bs, l);
    var (level, i) := Locate(bs, l);
    if level == 1 {
      IndIsDescend(disk, bs, i, Pointer(inode, 12));
    } else if level == 2 {
      DindIsDescend(disk, bs, i, Pointer(inode, 13));
    } else if level == 3 {
      TindIsDescend(disk, bs, i, Pointer(inode, 14));
    }
  }

  /** Block lookup through index blocks returns element `l` of the flattened
      pointer tree, where a zero index pointer stands for a hole, unless such
      a pointer lies on the way; past the tree it aborts. */
  lemma {:induction false} PointerLookupValue(disk: Image, bs: nat, inode: Inode, l: nat)
    requires IsBlockSize(bs) && l < TWO32 && l <= BlocksFor(inode.size, bs)
    ensures |Slots(disk, bs, inode)| == Width(bs)
    ensures l < Width(bs) ==>
              Slots(disk, bs, inode)[l] ==
              if ZeroOnPath(disk, bs, inode, l) then Ok(0) else PointerLookup(disk, bs, inode, l)
    ensures l >= Width(bs) ==> PointerLookup(disk, bs, inode, l).Abort?
  {
    if l < Width(bs) {
      SlotsAt(disk, bs, inode, l);
      LookupIsDescend(disk, bs, inode, l);
      var (level, i) := Locate(bs, l);
      if level > 0 {
        ExpandAt(disk, bs, Ok(Pointer(inode, 11 + level)), level, i);
      }
    } else {
      PastTheEnd(disk, bs, inode, l);
    }
  }

  lemma {:induction false} Limits(bs: nat, l: nat)
    requires IsBlockSize(bs) && l < TWO32
    ensures MaxInd(bs) <= Width(bs)
    ensures Width(bs) <= l ==> MaxDind(bs) <= l && MaxTind(bs) <= l
  {
    hide Power, Width;
    Ranges(bs, l);
    var a := bs / 4;
    MulMonotone(0, a * a, a);
  }

  lemma {:induction false} PastTheEnd(disk: Image, bs: nat, inode: Inode, l: nat)
    requires IsBlockSize(bs) && Width(bs) <= l < TWO32
    ensures PointerLookup(disk, bs, inode, l).Abort?
  {
    hide IndLookup, DindLookup, TindLookup, BlocksFor, Width, Pointer, MaxDind, MaxTind;
    Limits(bs, l);
  }

  /** The words reached from block 0 as if it were an index block lead to a
      zero word. */
  predicate BlockZeroLeadsToZero(disk: Image, bs: nat, level: nat, i: nat)
    requires bs >= 4
  {
    Descend(disk, bs, Ok(0), level, i) == Ok(0)
  }

  /** Level and offset at the first zero index pointer on the way, if any. */
  function ZeroSpot(disk: Image, bs: nat, ptr: Outcome<nat>, level: nat, i: nat): Option<(nat, nat)>
    requires bs >= 4
    decreases level
  {
    if level == 0 || ptr.Abort? then None
    else if ptr.value == 0 then Some((level, i))
    else
      var w := Power(bs / 4, level - 1);
      ZeroSpot(disk, bs, Slot(disk, bs, ptr.value, i / w), level - 1, i % w)
  }

  /** From the first zero pointer on, the code reads on in block 0. */
  lemma {:induction false} ZeroSpotMeaning(disk: Image, bs: nat, ptr: Outcome<nat>, level: nat, i: nat)
    requires bs >= 4
    ensures ZeroIndex(disk, bs, ptr, level, i) <==> ZeroSpot(disk, bs, ptr, level, i).Some?
    ensures match ZeroSpot(disk, bs, ptr, level, i)
            case None => true
            case Some((n, j)) => Descend(disk, bs, ptr, level, i) == Descend(disk, bs, Ok(0), n, j)
    decreases level
  {
    hide Slot, Power;
    if level > 0 && ptr.Ok? && ptr.value != 0 {
      var w := Power(bs / 4, level - 1);
      ZeroSpotMeaning(disk, bs, Slot(disk, bs, ptr.value, i / w), level - 1, i % w);
    }
  }

  function ZeroSpotOf(disk: Image, bs: nat, inode: Inode, l: nat): Option<(nat, nat)>
    requires bs >= 4
  {
    var (level, i) := Locate(bs, l);
    if level == 0 then None else ZeroSpot(disk, bs, Ok(Pointer(inode, 11 + level)), level, i)
  }

  /** It agrees with the flattened tree exactly when no index pointer on the
      way is zero, or the words found in block 0 from there on happen to lead
      to a zero word. */
  lemma {:induction false} PointerLookupExact(disk: Image, bs: nat, inode: Inode, l: nat)
    requires IsBlockSize(bs) && l < TWO32 && l <= BlocksFor(inode.size, bs) && l < Width(bs)
    ensures |Slots(disk, bs, inode)| == Width(bs)
    ensures PointerLookup(disk, bs, inode, l) == Slots(disk, bs, inode)[l]
            <==> match ZeroSpotOf(disk, bs, inode, l)
                 case None => true
                 case Some((level, i)) => BlockZeroLeadsToZero(disk, bs, level, i)
  {
    hide PointerLookup, Slots, Descend, Width, ZeroIndex, ZeroSpot, Pointer, BlocksFor;
    PointerLookupValue(disk, bs, inode, l);
    LookupIsDescend(disk, bs, inode, l);
    var (level, i) := Locate(bs, l);
    if level > 0 {
      ZeroSpotMeaning(disk, bs, Ok(Pointer(inode, 11 + level)), level, i);
    }
  }

  lemma {:induction false} FirstIndirect(bs: nat, l: nat)
    requires IsBlockSize(bs) && NDIR <= l < NDIR + bs / 4
    ensures l < Width(bs) && l < TWO32 && Locate(bs, l) == (1, l - NDIR)
  {
    hide Power;
    Powers(bs / 4);
  }

  /** A zero index pointer is followed to the words of block 0. */
  lemma {:induction false} WordThroughZero(disk: Image, bs: nat, i: nat)
    requires IsBlockSize(bs) && |disk| >= bs && i < bs / 4
    ensures IndLookup(disk, bs, i, 0) == Ok(LE32(disk, 4 * i))
    ensures ZeroIndex(disk, bs, Ok(0), 1, i)
  {
    hide LE32;
  }

  /** The failing cases: in a file with no indirect block, every block of the
      single-indirect range is a hole, and is looked up as the word of block 0
      in its place, whatever that says. */
  lemma {:induction false} SparseIndexMisread(disk: Image, bs: nat, inode: Inode, l: nat)
    requires IsBlockSize(bs) && |disk| >= bs && !inode.extents && Pointer(inode, 12) == 0
    requires NDIR <= l < NDIR + bs / 4 && l <= BlocksFor(inode.size, bs)
    ensures |Slots(disk, bs, inode)| == Width(bs) > l
    ensures Slots(disk, bs, inode)[l] == Ok(0)
    ensures PointerLookup(disk, bs, inode, l) == Ok(LE32(disk, 4 * (l - NDIR)))
  {
    hide Slots, PointerLookup, IndLookup, DindLookup, TindLookup, Width, ZeroIndex, Power, BlocksFor, LE32;
    FirstIndirect(bs, l);
    PointerLookupValue(disk, bs, inode, l);
    LookupBranch(disk, bs, inode, l);
    WordThroughZero(disk, bs, l - NDIR);
  }

  // ---- Which index blocks must be there ----

  /** The words that the descent reads are on the disk. */
  predicate PathOnDisk(disk: Image, bs: nat, ptr: nat, level: nat, i: nat)
    requires bs >= 4
    decreases level
  {
    level > 0 ==>
      var w := Power(bs / 4, level - 1);
      && ptr * bs + 4 * (i / w) + 4 <= |disk|
      && PathOnDisk(disk, bs, LE32(disk, ptr * bs + 4 * (i / w)), level - 1, i % w)
  }

  predicate IndexOnDisk(disk: Image, bs: nat, inode: Inode, l: nat)
    requires bs >= 4
  {
    var (level, i) := Locate(bs, l);
    level > 0 ==> PathOnDisk(disk, bs, Pointer(inode, 11 + level), level, i)
  }

  lemma {:induction false} PathOnDiskMeaning(disk: Image, bs: nat, ptr: nat, level: nat, i: nat)
    requires bs >= 4
    ensures PathOnDisk(disk, bs, ptr, level, i) <==> Descend(disk, bs, Ok(ptr), level, i).Ok?
    decreases level
  {
    hide LE32, Power;
    if level > 0 {
      var w := Power(bs / 4, level - 1);
      var at, q, r := ptr * bs + 4 * (i / w), i / w, i % w;
      if at + 4 <= |disk| {
        PathOnDiskMeaning(disk, bs, LE32(disk, at), level - 1, r);
      }
    }
  }

  /** A lookup through index blocks completes iff the words it reads are on
      the disk. */
  lemma {:induction false} LookupCompletes(disk: Image, bs: nat, inode: Inode, l: nat)
    requires IsBlockSize(bs) && l < TWO32 && l <= BlocksFor(inode.size, bs) && l < Width(bs)
    ensures PointerLookup(disk, bs, inode, l).Ok? <==> IndexOnDisk(disk, bs, inode, l)
  {
    hide PointerLookup, Descend, Width, PathOnDisk, Pointer, BlocksFor;
    LookupIsDescend(disk, bs, inode, l);
    var (level, i) := Locate(bs, l);
    if level > 0 {
      PathOnDiskMeaning(disk, bs, Pointer(inode, 11 + level), level, i);
    }
  }

  // ---- Both mappings behind one interface ----

  /** An inode that uses extents holds the root of a tree. */
  predicate Decodable(disk: Image, bs: nat, inode: Inode) {
    inode.extents ==> WellHeaded(inode.iblock) && Decode(disk, bs, inode.iblock).Some?
  }

  function TreeOf(disk: Image, bs: nat, inode: Inode): Tree
    requires inode.extents && Decodable(disk, bs, inode)
  {
    Decode(disk, bs, inode.iblock).value
  }

  /** `inode_get_data_pblock` with the length it stores. */
  function DataPblock(disk: Image, bs: nat, inode: Inode, l: nat): Outcome<Run>
    requires IsBlockSize(bs) && Decodable(disk, bs, inode)
  {
    if inode.extents then TreeLookup(TreeOf(disk, bs, inode), l, 1)
    else
      var p :- PointerLookup(disk, bs, inode, l);
      Ok(Run(p, 1))
  }

  method GetDataPblock(disk: Image, bs: nat, inode: Inode, l: nat) returns (r: Outcome<Run>)
    requires IsBlockSize(bs) && Decodable(disk, bs, inode) && l < TWO32
    ensures r == DataPblock(disk, bs, inode, l)
  {
    var len := 1;
    if inode.extents {
      LookupDecoded(disk, bs, inode.iblock, l, len);
      r := GetPblock(disk, bs, inode.iblock, l, len);
    } else {
      var p := PointerLookup(disk, bs, inode, l);
      if p.Abort? {
        return Abort;
      }
      r := Ok(Run(p.value, len));
    }
  }

  /** The physical block of logical block `l`, or 0 for a hole: what the flat
      list of extents, or the flattened pointer tree, says. */
  function Physical(disk: Image, bs: nat, inode: Inode, l: nat): nat
    requires Decodable(disk, bs, inode)
  {
    if inode.extents then FlatRun(Flatten(TreeOf(disk, bs, inode)), l).pblock
    else
      var slots := Slots(disk, bs, inode);
      if l < |slots| && slots[l].Ok? then slots[l].value else 0
  }

  ghost predicate ValidMap(disk: Image, bs: nat, inode: Inode) {
    && IsBlockSize(bs)
    && Decodable(disk, bs, inode)
    && (inode.extents ==> ValidTree(TreeOf(disk, bs, inode), 0, TWO32 - 1))
  }

  /** The lookup of `l` meets none of the cases in which it is wrong. */
  predicate Mapped(disk: Image, bs: nat, inode: Inode, l: nat)
    requires IsBlockSize(bs) && Decodable(disk, bs, inode)
  {
    if inode.extents then
      var leaf := SelectLeaf(TreeOf(disk, bs, inode), l);
      leaf.Some? && !HoleInLeaf(leaf.value, l)
    else
      && l <= BlocksFor(inode.size, bs) && l < Width(bs)
      && !ZeroOnPath(disk, bs, inode, l)
      && IndexOnDisk(disk, bs, inode, l)
  }

  /** What `op_read` relies on: the block and length returned for `l` say
      where the following blocks are. */
  lemma {:induction false} DataPblockSound(disk: Image, bs: nat, inode: Inode, l: nat)
    requires ValidMap(disk, bs, inode) && l < TWO32 - 1 && Mapped(disk, bs, inode, l)
    ensures DataPblock(disk, bs, inode, l).Ok?
    ensures var r := DataPblock(disk, bs, inode, l).value;
            && r.pblock == Physical(disk, bs, inode, l)
            && 1 <= r.len && l + r.len < TWO32
            && (r.pblock == 0 ==> r.len == 1)
            && (r.pblock != 0 ==>
                  forall m :: l <= m < l + r.len ==> Physical(disk, bs, inode, m) == r.pblock + (m - l))
  {
    hide PointerLookup, Slots, ZeroOnPath, IndexOnDisk, BlocksFor, Width, Decodable, TreeLookup, Flatten, FlatRun;
    if inode.extents {
      ExtentsSound(TreeOf(disk, bs, inode), l);
    } else {
      PointerLookupValue(disk, bs, inode, l);
      LookupCompletes(disk, bs, inode, l);
    }
  }

  lemma {:induction false} ExtentsSound(t: Tree, l: nat)
    requires ValidTree(t, 0, TWO32 - 1) && l < TWO32 - 1
    requires SelectLeaf(t, l).Some? && !HoleInLeaf(SelectLeaf(t, l).value, l)
    ensures TreeLookup(t, l, 1) == Ok(FlatRun(Flatten(t), l))
    ensures var es := Flatten(t);
            var r := FlatRun(es, l);
            && 1 <= r.len && l + r.len < TWO32
            && (r.pblock == 0 ==> r.len == 1)
            && (r.pblock != 0 ==> forall m :: l <= m < l + r.len ==> FlatRun(es, m).pblock == r.pblock + (m - l))
  {
    LookupExact(t, l, 0, TWO32 - 1);
    FlattenValid(t, 0, TWO32 - 1);
    FlatRunBounds(Flatten(t), l, 0, TWO32 - 1);
    var r := FlatRun(Flatten(t), l);
    if r.pblock != 0 {
      forall m | l <= m < l + r.len ensures FlatRun(Flatten(t), m).pblock == r.pblock + (m - l) {
        FlatRunLater(Flatten(t), l, m - l, 0, TWO32 - 1);
      }
    }
  }
}
