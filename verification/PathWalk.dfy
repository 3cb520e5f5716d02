/** What path resolution should return, and what it puts into the directory
    entry cache: the pure side of `inode_get_idx_by_path` (fuse/inode.c). */
module PathWalk {
  import opened Machine
  import opened DCache

  const ROOT: nat := 2

  /** The directories of an image: which inodes are directories, and the inode
      number the scan of an inode's records finds for a name (0 for none). */
  datatype Dirs = Dirs(isDir: nat -> bool, find: (nat, Name) -> nat)

  /** The uncached walk, component by component; 0 when a component is missing. */
  function Walk(d: Dirs, ino: nat, toks: seq<Name>): nat
    decreases toks
  {
    if toks == [] then ino
    else if d.find(ino, toks[0]) == 0 then 0
    else Walk(d, d.find(ino, toks[0]), toks[1..])
  }

  /** Every component is found, and in a directory. */
  predicate Legit(d: Dirs, ino: nat, toks: seq<Name>)
    decreases toks
  {
    toks == [] ||
    (d.isDir(ino) && d.find(ino, toks[0]) != 0 && Legit(d, d.find(ino, toks[0]), toks[1..]))
  }

  /** A cache entry, seen from outside: the path it hangs under and its inode. */
  datatype Pair = Pair(path: seq<Name>, ino: nat)

  /** The name does not fit the cache's name buffer. */
  predicate Long(name: Name) { |name| >= 40 }

  /** What a lookup inserts while it walks `toks` from inode `ino`, with `dc`
      the path of the entry it inserts under. A name too long to store makes
      the walk go on under the root of the cache. */
  function Inserted(d: Dirs, ino: nat, dc: seq<Name>, toks: seq<Name>): seq<Pair>
    decreases toks
  {
    if toks == [] || d.find(ino, toks[0]) == 0 then []
    else
      var x := d.find(ino, toks[0]);
      if !d.isDir(ino) then Inserted(d, x, dc, toks[1..])
      else if Long(toks[0]) then Inserted(d, x, [], toks[1..])
      else [Pair(dc + [toks[0]], x)] + Inserted(d, x, dc + [toks[0]], toks[1..])
  }

  /** The entry says what the walk from the root says. */
  predicate SoundPair(d: Dirs, x: Pair) {
    x.ino == Walk(d, ROOT, x.path) && Legit(d, ROOT, x.path)
  }

  ghost predicate AllSound(d: Dirs, pairs: set<Pair>) {
    forall x :: x in pairs ==> SoundPair(d, x)
  }

  /** Looking this path up on an empty cache inserts only sound entries. */
  predicate KeepsSound(d: Dirs, toks: seq<Name>) {
    forall x :: x in Inserted(d, ROOT, [], toks) ==> SoundPair(d, x)
  }

  predicate Short(toks: seq<Name>) { forall i :: 0 <= i < |toks| ==> !Long(toks[i]) }

  // ---- Walks ----

  lemma {:induction false} WalkAppend(d: Dirs, ino: nat, p: seq<Name>, q: seq<Name>)
    requires Legit(d, ino, p)
    ensures Walk(d, ino, p + q) == Walk(d, Walk(d, ino, p), q)
    ensures Legit(d, ino, p + q) <==> Legit(d, Walk(d, ino, p), q)
    decreases p
  {
    if p == [] {
      assert p + q == q;
    } else {
      assert (p + q)[1..] == p[1..] + q;
      WalkAppend(d, d.find(ino, p[0]), p[1..], q);
    }
  }

  /** A walk that succeeds so far goes on from where it is. */
  lemma {:induction false} WalkJoin(d: Dirs, ino: nat, p: seq<Name>, q: seq<Name>)
    requires Walk(d, ino, p) != 0
    ensures Walk(d, ino, p + q) == Walk(d, Walk(d, ino, p), q)
    decreases p
  {
    if p == [] {
      assert p + q == q;
    } else {
      assert (p + q)[1..] == p[1..] + q;
      WalkJoin(d, d.find(ino, p[0]), p[1..], q);
    }
  }

  lemma {:induction false} LegitPrefix(d: Dirs, ino: nat, p: seq<Name>, n: nat)
    requires Legit(d, ino, p) && n <= |p|
    ensures Legit(d, ino, p[..n])
    decreases p
  {
    if n > 0 {
      assert p[..n][1..] == p[1..][..n - 1];
      LegitPrefix(d, d.find(ino, p[0]), p[1..], n - 1);
    }
  }

  // ---- The cached prefix ----

  /** The entries a legitimate short path leaves behind, one per prefix. */
  function Trail(d: Dirs, ino: nat, dc: seq<Name>, toks: seq<Name>): seq<Pair>
    decreases toks
  {
    if toks == [] then []
    else
      var x := d.find(ino, toks[0]);
      [Pair(dc + [toks[0]], x)] + Trail(d, x, dc + [toks[0]], toks[1..])
  }

  /** Replaying a walk over a cached prefix inserts the prefix's entries and
      then what a walk from the end of the prefix inserts. */
  lemma {:induction false} InsertedAppend(d: Dirs, ino: nat, dc: seq<Name>, p: seq<Name>, q: seq<Name>)
    requires Legit(d, ino, p) && Short(p)
    ensures Inserted(d, ino, dc, p + q) == Trail(d, ino, dc, p) + Inserted(d, Walk(d, ino, p), dc + p, q)
    decreases p
  {
    if p == [] {
      assert p + q == q && dc + p == dc;
    } else {
      var x := d.find(ino, p[0]);
      assert (p + q)[1..] == p[1..] + q && (p + q)[0] == p[0];
      assert (dc + [p[0]]) + p[1..] == dc + p;
      InsertedAppend(d, x, dc + [p[0]], p[1..], q);
    }
  }

  /** The entries along a legitimate path are sound. */
  lemma {:induction false} TrailSound(d: Dirs, p: seq<Name>, q: seq<Name>)
    requires Legit(d, ROOT, p) && Legit(d, Walk(d, ROOT, p), q)
    ensures forall x :: x in Trail(d, Walk(d, ROOT, p), p, q) ==> SoundPair(d, x)
    decreases q
  {
    if q != [] {
      var ino := Walk(d, ROOT, p);
      var x := d.find(ino, q[0]);
      WalkAppend(d, ROOT, p, [q[0]]);
      assert Legit(d, ino, [q[0]]) && Walk(d, ino, [q[0]]) == x by { LegitOne(d, ino, q[0]); }
      TrailSound(d, p + [q[0]], q[1..]);
    }
  }

  lemma {:induction false} LegitOne(d: Dirs, ino: nat, t: Name)
    ensures Legit(d, ino, [t]) <==> d.isDir(ino) && d.find(ino, t) != 0
    ensures Walk(d, ino, [t]) == d.find(ino, t)
  {
    assert [t][1..] == [];
  }

  /** From a sound cache a lookup that starts at a cached prefix returns what
      the uncached walk returns. */
  lemma {:induction false} CachedWalk(d: Dirs, pairs: set<Pair>, toks: seq<Name>, c: nat, ino: nat)
    requires AllSound(d, pairs) && c <= |toks| && Pair(toks[..c], ino) in pairs
    ensures Walk(d, ino, toks[c..]) == Walk(d, ROOT, toks)
  {
    assert toks[..c] + toks[c..] == toks;
    WalkAppend(d, ROOT, toks[..c], toks[c..]);
  }

  /** A lookup keeps a sound cache sound if and only if it would do so on an
      empty cache; which prefix was cached makes no difference. */
  lemma {:induction false} CacheStaysSound(d: Dirs, pairs: set<Pair>, toks: seq<Name>, c: nat, ino: nat)
    requires AllSound(d, pairs) && c <= |toks| && Pair(toks[..c], ino) in pairs && Short(toks[..c])
    ensures (AllSound(d, pairs + set x | x in Inserted(d, ino, toks[..c], toks[c..]))) <==> KeepsSound(d, toks)
  {
    var p, q := toks[..c], toks[c..];
    assert p + q == toks;
    InsertedAppend(d, ROOT, [], p, q);
    assert [] + p == p;
    assert Legit(d, Walk(d, ROOT, []), p);
    TrailSound(d, [], p);
    var more := set x | x in Inserted(d, ino, p, q);
    assert forall x :: x in Inserted(d, ROOT, [], toks) <==> x in Trail(d, ROOT, [], p) || x in Inserted(d, ino, p, q);
    assert AllSound(d, pairs + more) <==> forall x :: x in more ==> SoundPair(d, x);
  }

  // ---- Which paths are safe ----

  /** Only directories yield entries. */
  ghost predicate OnlyDirs(d: Dirs) { forall i, n :: d.find(i, n) != 0 ==> d.isDir(i) }

  /** The walk takes entries from directories only. */
  predicate ThroughDirs(d: Dirs, ino: nat, toks: seq<Name>)
    decreases toks
  {
    toks == [] || d.find(ino, toks[0]) == 0 ||
    (d.isDir(ino) && ThroughDirs(d, d.find(ino, toks[0]), toks[1..]))
  }

  /** The guard a caller can check: no component that fits the cache's name
      buffer comes after one that does not. */
  predicate LongNamesLast(toks: seq<Name>) {
    forall i, j :: 0 <= i < j < |toks| && Long(toks[i]) ==> Long(toks[j])
  }

  lemma {:induction false} OnlyDirsThrough(d: Dirs, ino: nat, toks: seq<Name>)
    requires OnlyDirs(d)
    ensures ThroughDirs(d, ino, toks)
    decreases toks
  {
    if toks != [] && d.find(ino, toks[0]) != 0 {
      OnlyDirsThrough(d, d.find(ino, toks[0]), toks[1..]);
    }
  }

  lemma {:induction false} LongInsertNothing(d: Dirs, ino: nat, dc: seq<Name>, toks: seq<Name>)
    requires forall i :: 0 <= i < |toks| ==> Long(toks[i])
    ensures Inserted(d, ino, dc, toks) == []
    decreases toks
  {
    if toks != [] && d.find(ino, toks[0]) != 0 {
      var x := d.find(ino, toks[0]);
      LongInsertNothing(d, x, dc, toks[1..]);
      LongInsertNothing(d, x, [], toks[1..]);
    }
  }

  lemma {:induction false} InsertedSound(d: Dirs, p: seq<Name>, q: seq<Name>)
    requires Legit(d, ROOT, p) && ThroughDirs(d, Walk(d, ROOT, p), q) && LongNamesLast(q)
    ensures forall x :: x in Inserted(d, Walk(d, ROOT, p), p, q) ==> SoundPair(d, x)
    decreases q
  {
    var ino := Walk(d, ROOT, p);
    if q != [] && d.find(ino, q[0]) != 0 {
      assert forall i :: 0 <= i < |q| - 1 ==> q[1..][i] == q[i + 1];
      if Long(q[0]) {
        LongInsertNothing(d, d.find(ino, q[0]), [], q[1..]);
      } else {
        LegitOne(d, ino, q[0]);
        WalkAppend(d, ROOT, p, [q[0]]);
        InsertedSound(d, p + [q[0]], q[1..]);
      }
    }
  }

  /** Paths that keep their long names for the end are safe wherever the walk
      takes entries from directories only. */
  lemma {:induction false} LongNamesLastSafe(d: Dirs, toks: seq<Name>)
    requires ThroughDirs(d, ROOT, toks) && LongNamesLast(toks)
    ensures KeepsSound(d, toks)
  {
    InsertedSound(d, [], toks);
  }

  /** A short name behind a long one is inserted under the cache's root. */
  lemma {:induction false} Misplaced(d: Dirs, ino: nat, dc: seq<Name>, toks: seq<Name>, i: nat)
    requires i + 1 < |toks| && Long(toks[i]) && !Long(toks[i + 1])
    requires ThroughDirs(d, ino, toks) && Walk(d, ino, toks[..i + 2]) != 0
    ensures Pair([toks[i + 1]], Walk(d, ino, toks[..i + 2])) in Inserted(d, ino, dc, toks)
    decreases i
  {
    var x, rest := d.find(ino, toks[0]), toks[1..];
    assert toks[..i + 2][1..] == rest[..i + 1];
    if i == 0 {
      assert rest[..1] == [rest[0]] && [] + [rest[0]] == [rest[0]];
      LegitOne(d, x, rest[0]);
    } else {
      assert rest[i - 1] == toks[i] && rest[i] == toks[i + 1];
      Misplaced(d, x, [], rest, i - 1);
      Misplaced(d, x, dc + [toks[0]], rest, i - 1);
    }
  }

  /** The image in which inode 2 + i is a directory that holds `toks[i]` only. */
  function ChainDirs(toks: seq<Name>): Dirs {
    Dirs(i => true,
         (i: nat, n: Name) => if ROOT <= i < ROOT + |toks| && n == toks[i - ROOT] then i + 1 else 0)
  }

  lemma {:induction false} ChainWalk(toks: seq<Name>, i: nat, n: nat)
    requires i + n <= |toks|
    ensures Walk(ChainDirs(toks), ROOT + i, toks[i..i + n]) == ROOT + i + n
    decreases n
  {
    if n > 0 {
      assert toks[i..i + n][0] == toks[i] && toks[i..i + n][1..] == toks[i + 1..i + 1 + (n - 1)];
      ChainWalk(toks, i + 1, n - 1);
    }
  }

  lemma {:induction false} LongThenShort(toks: seq<Name>, i: nat, j: nat) returns (k: nat)
    requires i < j < |toks| && Long(toks[i]) && !Long(toks[j])
    ensures k + 1 < |toks| && Long(toks[k]) && !Long(toks[k + 1])
    decreases j - i
  {
    k := i;
    if Long(toks[i + 1]) {
      k := LongThenShort(toks, i + 1, j);
    }
  }

  /** The guard is exact: a path is safe on every image where only directories
      yield entries if and only if its long names come last. */
  lemma {:induction false} LongNamesLastExact(toks: seq<Name>)
    ensures (forall d :: OnlyDirs(d) ==> KeepsSound(d, toks)) <==> LongNamesLast(toks)
  {
    hide Inserted, SoundPair, Walk, Legit, ThroughDirs, Long;
    if LongNamesLast(toks) {
      forall d | OnlyDirs(d) ensures KeepsSound(d, toks) {
        OnlyDirsThrough(d, ROOT, toks);
        LongNamesLastSafe(d, toks);
      }
    } else {
      var i, j :| 0 <= i < j < |toks| && Long(toks[i]) && !Long(toks[j]);
      var k := LongThenShort(toks, i, j);
      ChainUnsafe(toks, k);
    }
  }

  lemma {:induction false} ChainUnsafe(toks: seq<Name>, k: nat)
    requires k + 1 < |toks| && Long(toks[k]) && !Long(toks[k + 1])
    ensures OnlyDirs(ChainDirs(toks)) && !KeepsSound(ChainDirs(toks), toks)
  {
    hide Inserted, Legit, ThroughDirs, Long;
    var d := ChainDirs(toks);
    OnlyDirsThrough(d, ROOT, toks);
    assert toks[0..0 + (k + 2)] == toks[..k + 2];
    ChainWalk(toks, 0, k + 2);
    Misplaced(d, ROOT, [], toks, k);
    LegitOne(d, ROOT, toks[k + 1]);
    assert !SoundPair(d, Pair([toks[k + 1]], ROOT + k + 2));
  }

  // ---- Path strings ----

  const SLASH: Byte := 47

  /** The path that names each component behind one slash. */
  function Join(toks: seq<Name>): seq<Byte> {
    if toks == [] then [] else ['/' as int] + toks[0] + Join(toks[1..])
  }

  /** Length of the component at the start of `s`. */
  function TokLen(s: seq<Byte>): (n: nat)
    ensures n <= |s|
    ensures n < |s| ==> s[n] == SLASH
    ensures forall i :: 0 <= i < n ==> s[i] != SLASH
  {
    if s == [] || s[0] == SLASH then 0 else 1 + TokLen(s[1..])
  }

  /** The components of a path string; runs of slashes count as one. */
  function Tokens(s: seq<Byte>): seq<Name>
    decreases |s|
  {
    if s == [] then []
    else if s[0] == SLASH then Tokens(s[1..])
    else [s[..TokLen(s)]] + Tokens(s[TokLen(s)..])
  }

  lemma {:induction false} TokLenIs(t: Name, rest: seq<Byte>)
    requires (forall i :: 0 <= i < |t| ==> t[i] != SLASH) && (rest != [] ==> rest[0] == SLASH)
    ensures TokLen(t + rest) == |t|
  {
    var s := t + rest;
    assert forall i :: 0 <= i < |t| ==> s[i] == t[i];
    assert rest != [] ==> s[|t|] == rest[0];
  }

  /** Splitting a path gives back the components it was made of. */
  lemma {:induction false} TokensOfJoin(toks: seq<Name>)
    requires forall i :: 0 <= i < |toks| ==> toks[i] != [] && forall j :: 0 <= j < |toks[i]| ==> toks[i][j] != 47
    ensures Tokens(Join(toks)) == toks
    decreases toks
  {
    if toks != [] {
      var t, rest := toks[0], Join(toks[1..]);
      var s := Join(toks)[1..];
      assert s == t + rest;
      TokLenIs(t, rest);
      assert s[..|t|] == t && s[|t|..] == rest;
      TokensOfJoin(toks[1..]);
    }
  }
}
