/** The extent tree of fuse/extents.c: the descent the code performs, the flat
    list of extents it should agree with, and exactly when it does. */
module Extents {
  import opened Machine

  /** Logical blocks first .. first+len-1 live at physical blocks start .. */
  datatype Extent = Extent(first: nat, len: nat, start: nat)

  datatype Child = Child(key: nat, tree: Tree)

  datatype Tree = Leaf(extents: seq<Extent>) | Index(kids: seq<Child>)

  /** A physical block and the number of consecutive blocks from there on. */
  datatype Run = Run(pblock: nat, len: nat)

  // ---- What the code computes ----

  /** Position of the first extent that ends after `l`, or |es|. */
  function Skip(es: seq<Extent>, l: nat): (i: nat)
    ensures i <= |es|
  {
    if es == [] || U32(es[0].first + es[0].len) > l then 0 else 1 + Skip(es[1..], l)
  }

  /** `extent_get_block_from_ees`; `len0` is what `*len` held before. */
  function LeafLookup(es: seq<Extent>, l: nat, len0: nat): Run {
    var i := Skip(es, l);
    if i == |es| then Run(0, len0)
    else Run(U32(es[i].start + U32(l - es[i].first)), U32(es[i].first + es[i].len - l))
  }

  /** How many leading index entries start at or before `l`. */
  function Route(kids: seq<Child>, l: nat): (n: nat)
    ensures n <= |kids|
  {
    if kids == [] || kids[0].key > l then 0 else 1 + Route(kids[1..], l)
  }

  /** `extent_get_pblock` on a decoded tree. */
  function TreeLookup(t: Tree, l: nat, len0: nat): Outcome<Run> {
    match t
    case Leaf(es) => Ok(LeafLookup(es, l, len0))
    case Index(kids) =>
      var n := Route(kids, l);
      if n == 0 then Abort else TreeLookup(kids[n - 1].tree, l, len0)
  }

  // ---- What it should compute ----

  predicate Covers(e: Extent, l: nat) { e.first <= l < e.first + e.len }

  function Flatten(t: Tree): seq<Extent>
    decreases t, 1
  {
    match t
    case Leaf(es) => es
    case Index(kids) => FlattenKids(kids)
  }

  function FlattenKids(kids: seq<Child>): seq<Extent>
    decreases kids, 0
  {
    if kids == [] then []
    else
      assert kids[0].tree < kids[0];
      Flatten(kids[0].tree) + FlattenKids(kids[1..])
  }

  /** The run a flat list of extents assigns to `l`; a hole is `Run(0, 1)`. */
  function FlatRun(es: seq<Extent>, l: nat): Run {
    if es == [] then Run(0, 1)
    else if Covers(es[0], l) then Run(es[0].start + (l - es[0].first), es[0].first + es[0].len - l)
    else FlatRun(es[1..], l)
  }

  /** Sorted, disjoint, nonempty extents within [lo, hi), at physical blocks
      other than 0 that fit in 32 bits. */
  ghost predicate ValidExtents(es: seq<Extent>, lo: nat, hi: nat) {
    && (forall i :: 0 <= i < |es| ==>
          lo <= es[i].first && 1 <= es[i].len && es[i].first + es[i].len <= hi &&
          1 <= es[i].start && es[i].start + es[i].len <= TWO32)
    && (forall i, j :: 0 <= i < j < |es| ==> es[i].first + es[i].len <= es[j].first)
  }

  ghost predicate ValidTree(t: Tree, lo: nat, hi: nat)
    decreases t, 1
  {
    match t
    case Leaf(es) => ValidExtents(es, lo, hi)
    case Index(kids) => ValidKids(kids, lo, hi)
  }

  /** Index entries are sorted, and each subtree stays between its own key and
      the next one. */
  ghost predicate ValidKids(kids: seq<Child>, lo: nat, hi: nat)
    decreases kids, 0
  {
    kids != [] ==>
      && lo <= kids[0].key <= NextKey(kids, hi) <= hi
      && (assert kids[0].tree < kids[0]; ValidTree(kids[0].tree, kids[0].key, NextKey(kids, hi)))
      && ValidKids(kids[1..], NextKey(kids, hi), hi)
  }

  function NextKey(kids: seq<Child>, hi: nat): nat
    requires kids != []
  {
    if |kids| == 1 then hi else kids[1].key
  }

  // ---- The two ways a lookup goes wrong ----

  /** The leaf the descent selects; none if at some index node every entry
      starts after `l`. */
  function SelectLeaf(t: Tree, l: nat): Option<seq<Extent>> {
    match t
    case Leaf(es) => Some(es)
    case Index(kids) =>
      var n := Route(kids, l);
      if n == 0 then None else SelectLeaf(kids[n - 1].tree, l)
  }

  /** `l` is a hole in front of a later extent of the same leaf. */
  predicate HoleInLeaf(es: seq<Extent>, l: nat) {
    (exists e :: e in es && l < e.first) && forall e :: e in es ==> !Covers(e, l)
  }

  // ---- Flat lists ----

  /** `FlatRun` is the run of the one covering extent, if there is one. */
  lemma {:induction false} FlatRunMeaning(es: seq<Extent>, l: nat, lo: nat, hi: nat)
    requires ValidExtents(es, lo, hi)
    ensures forall e :: e in es && Covers(e, l) ==>
              FlatRun(es, l) == Run(e.start + (l - e.first), e.first + e.len - l)
    ensures (forall e :: e in es ==> !Covers(e, l)) ==> FlatRun(es, l) == Run(0, 1)
  {
    if es != [] {
      FlatRunMeaning(es[1..], l, lo, hi);
      forall e | e in es && Covers(e, l)
        ensures FlatRun(es, l) == Run(e.start + (l - e.first), e.first + e.len - l)
      {
        if e != es[0] {
          assert e in es[1..];
        }
      }
    }
  }

  lemma {:induction false} FlatRunConcat(a: seq<Extent>, b: seq<Extent>, l: nat)
    ensures (forall e :: e in a ==> !Covers(e, l)) ==> FlatRun(a + b, l) == FlatRun(b, l)
    ensures (forall e :: e in b ==> !Covers(e, l)) ==> FlatRun(a + b, l) == FlatRun(a, l)
  {
    if a == [] {
      assert a + b == b;
      if forall e :: e in b ==> !Covers(e, l) {
        FlatRunNone(b, l);
      }
    } else {
      FlatRunConcat(a[1..], b, l);
      assert (a + b)[1..] == a[1..] + b;
    }
  }

  lemma {:induction false} FlatRunNone(es: seq<Extent>, l: nat)
    requires forall e :: e in es ==> !Covers(e, l)
    ensures FlatRun(es, l) == Run(0, 1)
  {
    if es != [] {
      FlatRunNone(es[1..], l);
    }
  }

  // ---- Leaves ----

  /** The scan stops at the only extent that can cover `l`. */
  lemma {:induction false} SkipMeaning(es: seq<Extent>, l: nat, lo: nat, hi: nat)
    requires ValidExtents(es, lo, hi) && hi < TWO32
    ensures forall i :: 0 <= i < Skip(es, l) ==> es[i].first + es[i].len <= l
    ensures forall i :: Skip(es, l) <= i < |es| ==> l < es[i].first + es[i].len
    ensures forall i :: Skip(es, l) < i < |es| ==> l < es[i].first
  {
    hide U32;
    if es != [] {
      U32Small(es[0].first + es[0].len);
      assert forall i :: 0 <= i < |es[1..]| ==> es[1..][i] == es[i + 1];
      SkipMeaning(es[1..], l, lo, hi);
      forall i | 0 <= i < |es|
        ensures i < Skip(es, l) ==> es[i].first + es[i].len <= l
        ensures Skip(es, l) <= i ==> l < es[i].first + es[i].len
        ensures Skip(es, l) < i ==> l < es[i].first
      {
        if i > 0 {
          assert es[i] == es[1..][i - 1];
          assert es[0].first + es[0].len <= es[i].first;
        }
      }
    }
  }

  /** Without wrap-around: what the leaf lookup returns. */
  lemma {:induction false} LeafLookupValue(es: seq<Extent>, l: nat, lo: nat, hi: nat)
    requires ValidExtents(es, lo, hi) && hi < TWO32
    ensures var i := Skip(es, l);
            if i == |es| then LeafLookup(es, l, 1) == Run(0, 1)
            else
              && l < es[i].first + es[i].len
              && LeafLookup(es, l, 1).len == es[i].first + es[i].len - l
              && LeafLookup(es, l, 1).pblock == U32(es[i].start + l - es[i].first)
              && (es[i].first <= l ==> LeafLookup(es, l, 1).pblock == es[i].start + (l - es[i].first))
  {
    SkipMeaning(es, l, lo, hi);
    var i := Skip(es, l);
    if i < |es| {
      ExtentArithmetic(es[i], l);
    }
  }

  lemma {:induction false} ExtentArithmetic(e: Extent, l: nat)
    requires l < e.first + e.len < TWO32 && e.start + e.len <= TWO32
    ensures U32(e.start + U32(l - e.first)) == U32(e.start + l - e.first)
    ensures U32(e.first + e.len - l) == e.first + e.len - l
    ensures e.first <= l ==> U32(e.start + l - e.first) == e.start + (l - e.first)
  {
    AddMod(e.start, l - e.first);
  }

  lemma {:induction false} AddMod(a: int, b: int)
    ensures U32(a + U32(b)) == U32(a + b)
  {
  }

  /** In a leaf that scan stops in front of a hole iff the leaf has one there. */
  lemma {:induction false} HoleMeaning(es: seq<Extent>, l: nat, lo: nat, hi: nat)
    requires ValidExtents(es, lo, hi) && hi < TWO32
    ensures HoleInLeaf(es, l) <==> Skip(es, l) < |es| && l < es[Skip(es, l)].first
  {
    SkipMeaning(es, l, lo, hi);
    var i := Skip(es, l);
    if i < |es| && l < es[i].first {
      assert es[i] in es;
    }
    if i < |es| && es[i].first <= l {
      assert Covers(es[i], l) && es[i] in es;
    }
  }

  lemma {:induction false} LeafExact(es: seq<Extent>, l: nat, lo: nat, hi: nat)
    requires ValidExtents(es, lo, hi) && hi < TWO32
    ensures LeafLookup(es, l, 1) == FlatRun(es, l) <==> !HoleInLeaf(es, l)
  {
    LeafLookupValue(es, l, lo, hi);
    HoleMeaning(es, l, lo, hi);
    FlatRunMeaning(es, l, lo, hi);
    var i := Skip(es, l);
    if i < |es| && es[i].first <= l {
      assert es[i] in es && Covers(es[i], l);
    } else if i == |es| {
      SkipMeaning(es, l, lo, hi);
      assert forall e :: e in es ==> !Covers(e, l);
    }
  }

  // ---- Index nodes ----

  /** Every extent below valid index entries lies in [lo, hi). */
  lemma {:induction false} FlattenRange(t: Tree, lo: nat, hi: nat)
    requires ValidTree(t, lo, hi)
    ensures forall e :: e in Flatten(t) ==> lo <= e.first && e.first + e.len <= hi
    decreases t, 1
  {
    match t
    case Leaf(es) =>
    case Index(kids) => FlattenKidsRange(kids, lo, hi);
  }

  lemma {:induction false} FlattenKidsRange(kids: seq<Child>, lo: nat, hi: nat)
    requires ValidKids(kids, lo, hi)
    ensures forall e :: e in FlattenKids(kids) ==> lo <= e.first && e.first + e.len <= hi
    decreases kids, 0
  {
    if kids != [] {
      assert kids[0].tree < kids[0];
      FlattenRange(kids[0].tree, kids[0].key, NextKey(kids, hi));
      FlattenKidsRange(kids[1..], NextKey(kids, hi), hi);
    }
  }

  /** The upper bound of the subtree at position `i`. */
  function KidEnd(kids: seq<Child>, i: nat, hi: nat): nat
    requires i < |kids|
  {
    if i + 1 < |kids| then kids[i + 1].key else hi
  }

  /** The selected subtree is valid, holds everything the whole list says
      about `l`, and stays selected for every block up to its end. */
  lemma {:induction false} RouteMeaning(kids: seq<Child>, l: nat, lo: nat, hi: nat)
    requires ValidKids(kids, lo, hi) && l < hi
    ensures var n := Route(kids, l);
            && (n == 0 ==> FlatRun(FlattenKids(kids), l) == Run(0, 1))
            && (n > 0 ==>
                  && ValidTree(kids[n - 1].tree, kids[n - 1].key, KidEnd(kids, n - 1, hi))
                  && kids[n - 1].key <= l < KidEnd(kids, n - 1, hi) <= hi
                  && FlatRun(FlattenKids(kids), l) == FlatRun(Flatten(kids[n - 1].tree), l)
                  && forall m :: l <= m < KidEnd(kids, n - 1, hi) ==> Route(kids, m) == n)
    decreases kids
  {
    hide FlatRun, Flatten, ValidTree, ValidExtents;
    FlatRunNone([], l);
    if kids == [] {
    } else if kids[0].key > l {
      FlattenKidsRange(kids, kids[0].key, hi);
      FlatRunNone(FlattenKids(kids), l);
    } else {
      var rest, next := kids[1..], NextKey(kids, hi);
      var head, tail := Flatten(kids[0].tree), FlattenKids(rest);
      RouteMeaning(rest, l, next, hi);
      FlattenRange(kids[0].tree, kids[0].key, next);
      FlatRunConcat(head, tail, l);
      if Route(rest, l) == 0 {
        FlattenKidsRange(rest, next, hi);
        assert rest != [] ==> rest[0].key > l;
        forall m | l <= m < KidEnd(kids, 0, hi) ensures Route(kids, m) == 1 {
          assert rest != [] ==> rest[0] == kids[1];
        }
      } else {
        var n := Route(rest, l);
        assert rest[n - 1] == kids[n] && KidEnd(rest, n - 1, hi) == KidEnd(kids, n, hi);
        assert kids[1].key <= l;
        forall m | l <= m < KidEnd(kids, n, hi) ensures Route(kids, m) == n + 1 {
        }
      }
    }
  }

  lemma {:induction false} LookupIsLeafLookup(t: Tree, l: nat, len0: nat)
    ensures TreeLookup(t, l, len0) ==
            match SelectLeaf(t, l)
            case None => Abort
            case Some(es) => Ok(LeafLookup(es, l, len0))
  {
    match t
    case Leaf(_) =>
    case Index(kids) =>
      var n := Route(kids, l);
      if n > 0 {
        LookupIsLeafLookup(kids[n - 1].tree, l, len0);
      }
  }

  /** The selected leaf covers [a, b) around `l`: it is valid there, it holds
      everything the whole tree says about `l`, and it stays selected up to b. */
  lemma {:induction false} LeafBounds(t: Tree, l: nat, lo: nat, hi: nat) returns (a: nat, b: nat)
    requires ValidTree(t, lo, hi) && l < hi
    ensures SelectLeaf(t, l).None? ==> FlatRun(Flatten(t), l) == Run(0, 1)
    ensures SelectLeaf(t, l).Some? ==>
              && ValidExtents(SelectLeaf(t, l).value, a, b) && l < b <= hi
              && FlatRun(Flatten(t), l) == FlatRun(SelectLeaf(t, l).value, l)
              && forall m :: l <= m < b ==> SelectLeaf(t, m) == SelectLeaf(t, l)
  {
    hide FlatRun, ValidExtents, ValidKids, FlattenKids, Route;
    match t
    case Leaf(es) => a, b := lo, hi;
    case Index(kids) =>
      RouteMeaning(kids, l, lo, hi);
      var n := Route(kids, l);
      if n > 0 {
        var sub := kids[n - 1].tree;
        a, b := LeafBounds(sub, l, kids[n - 1].key, KidEnd(kids, n - 1, hi));
        if SelectLeaf(sub, l).Some? {
          forall m | l <= m < b ensures SelectLeaf(t, m) == SelectLeaf(t, l) {
            assert Route(kids, m) == n;
            assert SelectLeaf(sub, m) == SelectLeaf(sub, l);
          }
        }
      } else {
        a, b := lo, hi;
      }
  }

  lemma {:induction false} ValidConcat(a: seq<Extent>, b: seq<Extent>, lo: nat, mid: nat, hi: nat)
    requires ValidExtents(a, lo, mid) && ValidExtents(b, mid, hi) && lo <= mid <= hi
    ensures ValidExtents(a + b, lo, hi)
  {
    var c := a + b;
    forall i, j | 0 <= i < j < |c| ensures c[i].first + c[i].len <= c[j].first {
      if i < |a| <= j {
        assert c[i] == a[i] && c[j] == b[j - |a|];
      }
    }
  }

  /** All the leaves of a valid tree, read in order, are one sorted list of
      disjoint extents. */
  lemma {:induction false} FlattenValid(t: Tree, lo: nat, hi: nat)
    requires ValidTree(t, lo, hi)
    ensures ValidExtents(Flatten(t), lo, hi)
    decreases t, 1
  {
    match t
    case Leaf(es) =>
    case Index(kids) => FlattenKidsValid(kids, lo, hi);
  }

  lemma {:induction false} FlattenKidsValid(kids: seq<Child>, lo: nat, hi: nat)
    requires ValidKids(kids, lo, hi)
    ensures ValidExtents(FlattenKids(kids), lo, hi)
    decreases kids, 0
  {
    if kids != [] {
      assert kids[0].tree < kids[0];
      var next := NextKey(kids, hi);
      FlattenValid(kids[0].tree, kids[0].key, next);
      FlattenKidsValid(kids[1..], next, hi);
      ValidConcat(Flatten(kids[0].tree), FlattenKids(kids[1..]), kids[0].key, next, hi);
    }
  }

  /** In a flat list a run continues as its own tail. */
  lemma {:induction false} FlatRunLater(es: seq<Extent>, l: nat, k: nat, lo: nat, hi: nat)
    requires ValidExtents(es, lo, hi)
    requires FlatRun(es, l).pblock != 0 && k < FlatRun(es, l).len
    ensures FlatRun(es, l + k) == Run(FlatRun(es, l).pblock + k, FlatRun(es, l).len - k)
    ensures FlatRun(es, l).pblock + FlatRun(es, l).len <= TWO32
  {
    FlatRunMeaning(es, l, lo, hi);
    FlatRunMeaning(es, l + k, lo, hi);
    var e :| e in es && Covers(e, l);
    assert Covers(e, l + k);
  }

  lemma {:induction false} FlatRunBounds(es: seq<Extent>, l: nat, lo: nat, hi: nat)
    requires ValidExtents(es, lo, hi) && l < hi
    ensures var r := FlatRun(es, l);
            1 <= r.len && l + r.len <= hi && (r.pblock == 0 ==> r.len == 1)
  {
    FlatRunMeaning(es, l, lo, hi);
    if e :| e in es && Covers(e, l) {
    }
  }

  // ---- Main results ----

  /** The recursive descent returns the run of the flattened list of extents
      exactly when every index node has an entry at or before the block and
      the block is not a hole in front of a later extent of its leaf. */
  lemma {:induction false} LookupExact(t: Tree, l: nat, lo: nat, hi: nat)
    requires ValidTree(t, lo, hi) && l < hi < TWO32
    ensures TreeLookup(t, l, 1) == Ok(FlatRun(Flatten(t), l))
            <==> SelectLeaf(t, l).Some? && !HoleInLeaf(SelectLeaf(t, l).value, l)
  {
    LookupIsLeafLookup(t, l, 1);
    var a, b := LeafBounds(t, l, lo, hi);
    if SelectLeaf(t, l).Some? {
      LeafExact(SelectLeaf(t, l).value, l, a, b);
    }
  }

  lemma {:induction false} SkipIs(es: seq<Extent>, l: nat, i: nat)
    requires i < |es| && U32(es[i].first + es[i].len) > l
    requires forall j :: 0 <= j < i ==> U32(es[j].first + es[j].len) <= l
    ensures Skip(es, l) == i
  {
    if i > 0 {
      SkipIs(es[1..], l, i - 1);
    }
  }

  lemma {:induction false} SkipSame(es: seq<Extent>, l: nat, m: nat, lo: nat, hi: nat)
    requires ValidExtents(es, lo, hi) && hi < TWO32
    requires Skip(es, l) < |es| && l <= m < es[Skip(es, l)].first + es[Skip(es, l)].len
    ensures Skip(es, m) == Skip(es, l)
  {
    SkipMeaning(es, l, lo, hi);
    SkipIs(es, m, Skip(es, l));
  }

  lemma {:induction false} LeafRunPromise(es: seq<Extent>, l: nat, k: nat, lo: nat, hi: nat)
    requires ValidExtents(es, lo, hi) && hi < TWO32
    requires k < LeafLookup(es, l, 1).len
    ensures l + k < hi || k == 0
    ensures LeafLookup(es, l + k, 1) == Later(LeafLookup(es, l, 1), k)
  {
    hide U32, Skip;
    LeafLookupValue(es, l, lo, hi);
    var i := Skip(es, l);
    if i < |es| {
      SkipSame(es, l, l + k, lo, hi);
      LaterArithmetic(es[i], l, k);
    } else {
      U32Small(0);
    }
  }

  lemma {:induction false} LaterArithmetic(e: Extent, l: nat, k: nat)
    requires l + k < e.first + e.len < TWO32 && e.start + e.len <= TWO32
    ensures var p, n := U32(e.start + U32(l - e.first)), U32(e.first + e.len - l);
            && n == e.first + e.len - l
            && U32(e.start + U32(l + k - e.first)) == U32(p + k)
            && U32(e.first + e.len - (l + k)) == n - k
  {
    hide U32;
    ExtentArithmetic(e, l);
    ExtentArithmetic(e, l + k);
    AddMod(k, e.start + l - e.first);
    assert k + U32(e.start + l - e.first) == U32(e.start + l - e.first) + k;
    assert k + (e.start + l - e.first) == e.start + (l + k) - e.first;
  }

  lemma {:induction false} LeafRunNonempty(es: seq<Extent>, l: nat, lo: nat, hi: nat)
    requires ValidExtents(es, lo, hi) && hi < TWO32
    ensures 1 <= LeafLookup(es, l, 1).len < TWO32
  {
    LeafLookupValue(es, l, lo, hi);
  }

  /** The rest of a run after its first `k` blocks. */
  function Later(r: Run, k: nat): Run
    requires k < r.len
  {
    Run(U32(r.pblock + k), r.len - k)
  }

  /** A lookup that does not abort returns a nonempty run, so a reader that
      steps by the run length always advances. */
  lemma {:induction false} RunNonempty(t: Tree, l: nat, lo: nat, hi: nat)
    requires ValidTree(t, lo, hi) && l < hi < TWO32
    ensures TreeLookup(t, l, 1).Ok? ==> 1 <= TreeLookup(t, l, 1).value.len < TWO32
  {
    LookupIsLeafLookup(t, l, 1);
    var a, b := LeafBounds(t, l, lo, hi);
    if SelectLeaf(t, l).Some? {
      LeafRunNonempty(SelectLeaf(t, l).value, l, a, b);
    }
  }

  /** The run-length promise: every block of a returned run is looked up,
      through the same leaf, to the corresponding block of that run. */
  lemma {:induction false} RunPromise(t: Tree, l: nat, k: nat, lo: nat, hi: nat)
    requires ValidTree(t, lo, hi) && l < hi < TWO32
    requires TreeLookup(t, l, 1).Ok? && k < TreeLookup(t, l, 1).value.len
    ensures SelectLeaf(t, l + k) == SelectLeaf(t, l)
    ensures TreeLookup(t, l + k, 1) == Ok(Later(TreeLookup(t, l, 1).value, k))
  {
    LookupIsLeafLookup(t, l, 1);
    LookupIsLeafLookup(t, l + k, 1);
    var a, b := LeafBounds(t, l, lo, hi);
    LeafRunPromise(SelectLeaf(t, l).value, l, k, a, b);
    assert SelectLeaf(t, l + k) == SelectLeaf(t, l);
  }

  // ---- What is read in place of a hole ----

  /** The block found for `l` counts back from the extent the scan stops at
      without reaching block 0. */
  predicate ShiftOk(es: seq<Extent>, l: nat) {
    var i := Skip(es, l);
    i < |es| ==> es[i].first < es[i].start + l
  }

  lemma {:induction false} LeafStandIn(es: seq<Extent>, l: nat, lo: nat, hi: nat)
    requires ValidExtents(es, lo, hi) && l < hi < TWO32 && ShiftOk(es, l)
    ensures var r := LeafLookup(es, l, 1);
            && 1 <= r.len && l + r.len <= hi && r.pblock + r.len <= TWO32
            && (r.pblock == 0 ==> r.len == 1)
            && (HoleInLeaf(es, l) ==> r.pblock != 0)
  {
    hide U32, Skip, LeafLookup;
    LeafLookupValue(es, l, lo, hi);
    var i := Skip(es, l);
    if i < |es| {
      U32Small(es[i].start + l - es[i].first);
    } else {
      PastTheLast(es, l, lo, hi);
    }
  }

  lemma {:induction false} PastTheLast(es: seq<Extent>, l: nat, lo: nat, hi: nat)
    requires ValidExtents(es, lo, hi) && hi < TWO32 && Skip(es, l) == |es|
    ensures !HoleInLeaf(es, l)
  {
    hide Skip;
    SkipMeaning(es, l, lo, hi);
  }

  /** The run found for any block of a valid tree is one of consecutive blocks,
      as long as it does not count back to block 0; for a hole in front of an
      extent it is made of the blocks in front of that extent's own. */
  lemma {:induction false} TreeStandIn(t: Tree, l: nat, hi: nat)
    requires ValidTree(t, 0, hi) && l < hi < TWO32
    requires SelectLeaf(t, l).Some? && ShiftOk(SelectLeaf(t, l).value, l)
    ensures TreeLookup(t, l, 1).Ok?
    ensures var r := TreeLookup(t, l, 1).value;
            && 1 <= r.len && l + r.len <= hi
            && (r.pblock == 0 ==> r.len == 1)
            && (HoleInLeaf(SelectLeaf(t, l).value, l) ==> r.pblock != 0)
            && forall m :: l <= m < l + r.len ==> TreeLookup(t, m, 1) == Ok(Run(r.pblock + (m - l), r.len - (m - l)))
  {
    hide FlatRun, LeafLookup, ValidExtents, Route, ShiftOk, HoleInLeaf, U32;
    LookupIsLeafLookup(t, l, 1);
    var a, b := LeafBounds(t, l, 0, hi);
    LeafStandIn(SelectLeaf(t, l).value, l, a, b);
    var r := TreeLookup(t, l, 1).value;
    forall m | l <= m < l + r.len
      ensures TreeLookup(t, m, 1) == Ok(Run(r.pblock + (m - l), r.len - (m - l)))
    {
      RunPromise(t, l, m - l, 0, hi);
      U32Small(r.pblock + (m - l));
    }
  }

  lemma {:induction false} HoleIsFlatHole(t: Tree, l: nat, hi: nat)
    requires ValidTree(t, 0, hi) && l < hi
    requires SelectLeaf(t, l).Some? && HoleInLeaf(SelectLeaf(t, l).value, l)
    ensures FlatRun(Flatten(t), l) == Run(0, 1)
  {
    hide FlatRun, ValidExtents, ValidTree, Flatten, SelectLeaf;
    var a, b := LeafBounds(t, l, 0, hi);
    FlatRunNone(SelectLeaf(t, l).value, l);
  }
}
