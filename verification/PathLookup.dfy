/** Path resolution through the directory entry cache (fuse/inode.c): first as
    far as the cache goes, then directory by directory, inserting on the way. */
module PathLookup {
  import opened Machine
  import opened PathWalk
  import D = DCache
  import S = Super
  import F = DirFile

  lemma {:induction false} TokensSlash(s: seq<Byte>)
    requires s != [] && s[0] == SLASH
    ensures Tokens(s) == Tokens(s[1..])
  {
  }

  lemma {:induction false} TokensStep(s: seq<Byte>)
    requires TokLen(s) > 0
    ensures s != [] && Tokens(s) == [s[..TokLen(s)]] + Tokens(s[TokLen(s)..])
  {
  }

  lemma {:induction false} TokensNone(s: seq<Byte>)
    requires s == [] || (TokLen(s) == 0 && s[0] != SLASH)
    ensures Tokens(s) == []
  {
  }

  /** Paths a caller may pass: absolute C strings whose components are at most
      255 bytes, the range of the component length counter. */
  predicate GoodPath(path: seq<Byte>) {
    && path != [] && path[0] == SLASH
    && D.NulFree(path)
    && forall i :: 0 <= i < |Tokens(path)| ==> |Tokens(path)[i]| <= 255
  }

  /** `get_path_token_len`; the counter is 8 bits wide. */
  method TokenLength(path: seq<Byte>, pos: nat) returns (len: nat)
    requires pos <= |path| && TokLen(path[pos..]) <= 255
    ensures len == TokLen(path[pos..])
  {
    len := 0;
    assert path[pos + 0..] == path[pos..];
    while pos + len < |path| && path[pos + len] != SLASH
      invariant pos + len <= |path| && len <= 255
      invariant TokLen(path[pos..]) == len + TokLen(path[pos + len..])
      decreases |path| - pos - len
    {
      assert path[pos + len..][1..] == path[pos + (len + 1)..];
      len := (len + 1) % 256;
    }
  }

  /** `skip_trailing_backslash`. */
  method SkipSlashes(path: seq<Byte>, pos0: nat) returns (pos: nat)
    requires pos0 <= |path|
    ensures pos0 <= pos <= |path| && Tokens(path[pos..]) == Tokens(path[pos0..])
    ensures pos < |path| ==> path[pos] != SLASH
  {
    pos := pos0;
    while pos < |path| && path[pos] == SLASH
      invariant pos0 <= pos <= |path| && Tokens(path[pos..]) == Tokens(path[pos0..])
    {
      TokensSlash(path[pos..]);
      assert path[pos..][1..] == path[pos + 1..];
      pos := pos + 1;
    }
  }

  /** The component at `pos` is the next token. */
  lemma {:induction false} NextToken(path: seq<Byte>, pos: nat, toks: seq<Name>, k: nat)
    requires pos <= |path| && k <= |toks| && Tokens(path[pos..]) == toks[k..] && D.NulFree(path)
    ensures TokLen(path[pos..]) > 0 ==>
              && k < |toks| && pos + TokLen(path[pos..]) <= |path|
              && path[pos..pos + TokLen(path[pos..])] == toks[k] && D.NulFree(toks[k])
              && Tokens(path[pos + TokLen(path[pos..])..]) == toks[k + 1..]
    ensures TokLen(path[pos..]) == 0 && (pos < |path| ==> path[pos] != SLASH) ==> k == |toks|
  {
    var s := path[pos..];
    var n := TokLen(s);
    if n > 0 {
      TokensStep(s);
      assert s[..n] == path[pos..pos + n] && s[n..] == path[pos + n..];
      assert toks[k..][1..] == toks[k + 1..];
    } else if pos == |path| || path[pos] != SLASH {
      TokensNone(s);
    }
  }

  /** The longest stretch of the path that is cached, and where it ends. */
  method GetCached(cache: D.Cache, path: seq<Byte>) returns (ret: D.Entry?, pos: nat, ghost c: nat)
    requires cache.Valid() && GoodPath(path)
    modifies cache.nodes
    ensures cache.Valid()
    ensures pos <= |path| && c <= |Tokens(path)| && Tokens(path[pos..]) == Tokens(path)[c..]
    ensures cache.At(ret) in cache.nodes && cache.At(ret).path == Tokens(path)[..c]
    ensures c == 0 && Tokens(path) != [] && path[1..] != [] && path[1] != SLASH ==>
              forall e :: e in old(cache.root.ring) ==> e.name != Tokens(path)[0]
  {
    hide Tokens, TokLen, D.Ring, D.Placed, D.NulFree;
    ghost var toks := Tokens(path);
    var next: D.Entry? := null;
    pos, c := 0, 0;
    assert path[0..] == path;
    while true
      invariant cache.Valid() && cache.At(next) in cache.nodes
      invariant pos <= |path| && c <= |toks| && Tokens(path[pos..]) == toks[c..]
      invariant cache.At(next).path == toks[..c]
      invariant c == 0 ==> pos == 0 && next == null && cache.root.ring == old(cache.root.ring)
      decreases |path| - pos
    {
      if pos < |path| && path[pos] == SLASH {
        TokensSlash(path[pos..]);
        assert path[pos..][1..] == path[pos + 1..];
        pos := pos + 1;
      }
      NextToken(path, pos, toks, c);
      var len := TokenLength(path, pos);
      ret := next;
      if len == 0 {
        return;
      }
      next := cache.Lookup(ret, path[pos..pos + len]);
      if next == null {
        return;
      }
      pos := pos + len;
      c := c + 1;
    }
  }

  // ---- The walk behind the cache ----

  /** The cache as a set of (path, inode) pairs. */
  ghost function Pairs(cache: D.Cache): set<Pair>
    reads cache
  {
    set e | e in cache.nodes :: Pair(e.path, e.inode)
  }

  ghost function SeqSet<T>(s: seq<T>): set<T> { set x | x in s }

  lemma {:induction false} InsertedStep(d: Dirs, ino: nat, dc: seq<Name>, toks: seq<Name>, k: nat)
    requires k < |toks|
    ensures var x, t, rest := d.find(ino, toks[k]), toks[k], toks[k + 1..];
            && Walk(d, ino, toks[k..]) == (if x == 0 then 0 else Walk(d, x, rest))
            && Inserted(d, ino, dc, toks[k..]) ==
               if x == 0 then []
               else if !d.isDir(ino) then Inserted(d, x, dc, rest)
               else if Long(t) then Inserted(d, x, [], rest)
               else [Pair(dc + [t], x)] + Inserted(d, x, dc + [t], rest)
  {
    assert toks[k..][0] == toks[k] && toks[k..][1..] == toks[k + 1..];
  }

  lemma {:induction false} AtLastToken(d: Dirs, ino: nat, dc: seq<Name>, toks: seq<Name>)
    ensures Inserted(d, ino, dc, toks[|toks|..]) == [] && Walk(d, ino, toks[|toks|..]) == ino
  {
  }

  /** The effect of one found component on the cache: an entry under the
      current one, or none if the scanned inode is no directory. */
  method Remember(cache: D.Cache, isDir: bool, dc0: D.Entry?, tok: Name, x: nat) returns (dc: D.Entry?)
    requires cache.Valid() && cache.At(dc0) in cache.nodes && D.NulFree(tok)
    modifies cache`nodes, cache.nodes
    ensures cache.Valid() && cache.At(dc) in cache.nodes && cache.nodes >= old(cache.nodes)
    ensures fresh(cache.nodes - old(cache.nodes))
    ensures var under := cache.At(dc0).path;
            if !isDir then dc == dc0 && Pairs(cache) == old(Pairs(cache))
            else if Long(tok) then cache.At(dc).path == [] && Pairs(cache) == old(Pairs(cache))
            else cache.At(dc).path == under + [tok] && Pairs(cache) == old(Pairs(cache)) + {Pair(under + [tok], x)}
  {
    hide D.Ring, D.Placed, D.NulFree;
    dc := dc0;
    if isDir {
      dc := cache.Insert(dc, tok, x);
      if dc != null {
        assert dc in cache.nodes && Pair(dc.path, dc.inode) in Pairs(cache);
        assert forall e :: e in cache.nodes ==> e == dc || e in old(cache.nodes);
      }
    }
  }

  lemma {:induction false} WalkableStep(v: S.Volume, ino: nat, toks: seq<Name>, k: nat)
    requires k < |toks| && F.Walkable(v, ino, toks[k..])
    ensures F.GoodDirAt(v, ino)
    ensures var x := F.VolumeDirs(v).find(ino, toks[k]);
            x != 0 ==> F.Walkable(v, x, toks[k + 1..])
  {
    hide F.GoodDirAt, F.VolumeDirs;
    assert toks[k..][0] == toks[k] && toks[k..][1..] == toks[k + 1..];
  }

  /** The main loop of `inode_get_idx_by_path` on a volume, from component `c`
      on: each inode on the way is read and its records are scanned. */
  method WalkOn(cache: D.Cache, v: S.Volume, path: seq<Byte>, pos0: nat, ino0: nat, dc0: D.Entry?, ghost toks: seq<Name>, ghost c: nat)
    returns (ino: nat)
    requires cache.Valid() && cache.At(dc0) in cache.nodes && D.NulFree(path)
    requires pos0 <= |path| && c <= |toks| && Tokens(path[pos0..]) == toks[c..]
    requires forall i :: 0 <= i < |toks| ==> |toks[i]| <= 255
    requires F.Walkable(v, ino0, toks[c..])
    modifies cache`nodes, cache.nodes
    ensures cache.Valid() && fresh(cache.nodes - old(cache.nodes))
    ensures ino == Walk(F.VolumeDirs(v), ino0, toks[c..])
    ensures Pairs(cache)
            == old(Pairs(cache)) + SeqSet(Inserted(F.VolumeDirs(v), ino0, cache.At(dc0).path, toks[c..]))
  {
    hide Tokens, TokLen, D.Ring, D.Placed, D.NulFree, Inserted, Walk, Pairs, cache.Valid, Long, F.VolumeDirs, F.Walkable, F.GoodDirAt;
    ghost var d := F.VolumeDirs(v);
    ghost var goal := Inserted(d, ino0, cache.At(dc0).path, toks[c..]);
    ghost var done: seq<Pair>, k := [], c;
    var pos, dc := pos0, dc0;
    ino := ino0;
    assert [] + goal == goal;
    while true
      invariant cache.Valid() && cache.At(dc) in cache.nodes
      invariant cache.nodes >= old(cache.nodes) && fresh(cache.nodes - old(cache.nodes))
      invariant pos <= |path| && k <= |toks| && Tokens(path[pos..]) == toks[k..]
      invariant F.Walkable(v, ino, toks[k..])
      invariant Walk(d, ino0, toks[c..]) == Walk(d, ino, toks[k..])
      invariant goal == done + Inserted(d, ino, cache.At(dc).path, toks[k..])
      invariant Pairs(cache) == old(Pairs(cache)) + SeqSet(done)
      decreases |path| - pos
    {
      pos := SkipSlashes(path, pos);
      NextToken(path, pos, toks, k);
      var len := TokenLength(path, pos);
      if len == 0 {
        AtLastToken(d, ino, cache.At(dc).path, toks);
        return;
      }
      var tok := path[pos..pos + len];
      InsertedStep(d, ino, cache.At(dc).path, toks, k);
      WalkableStep(v, ino, toks, k);
      var x, isDir := F.FindInVolume(v, ino, tok);
      if x == 0 {
        return 0;
      }
      ghost var under, storable := cache.At(dc).path, isDir && !Long(tok);
      dc := Remember(cache, isDir, dc, tok, x);
      ino, k := x, k + 1;
      if storable {
        done := Extend(done, Pair(under + [tok], x), Inserted(d, ino, cache.At(dc).path, toks[k..]));
      }
      pos := pos + len;
      if pos == |path| {
        NothingLeft(path, toks, k);
        AtLastToken(d, ino, cache.At(dc).path, toks);
        return;
      }
    }
  }

  ghost function Extend<T(!new)>(done: seq<T>, x: T, rest: seq<T>): (r: seq<T>)
    ensures done + ([x] + rest) == r + rest
    ensures SeqSet(r) == SeqSet(done) + {x}
  {
    var r := done + [x];
    assert done + ([x] + rest) == r + rest;
    assert forall y :: y in r <==> y in done || y == x;
    r
  }

  lemma {:induction false} NothingLeft(path: seq<Byte>, toks: seq<Name>, k: nat)
    requires k <= |toks| && Tokens(path[|path|..]) == toks[k..]
    ensures toks[k..] == [] && k == |toks|
  {
  }

  // ---- Main results ----

  /** Every cached entry says what the uncached walk says. */
  ghost predicate Sound(cache: D.Cache, d: Dirs)
    reads cache
  {
    AllSound(d, Pairs(cache))
  }

  /** Names in the cache fit its name buffer. */
  lemma {:induction false} ShortPath(cache: D.Cache, e: D.Entry)
    requires cache.Valid() && e in cache.nodes
    ensures Short(e.path)
    decreases |e.path|
  {
    D.PlacedName(e, cache.root, cache.nodes);
    if e != cache.root {
      ShortPath(cache, e.parent);
    }
  }

  /** An entry for a one-component path is a child of the root. */
  lemma {:induction false} FirstLevel(cache: D.Cache, e: D.Entry)
    requires cache.Valid() && e in cache.nodes && |e.path| == 1
    ensures e in cache.root.ring && e.name == e.path[0]
  {
    hide D.Ring, D.Placed;
    D.PlacedName(e, cache.root, cache.nodes);
    D.PlacedName(e.parent, cache.root, cache.nodes);
  }

  /** Wherever the cache may let the walk start, it scans good directories. */
  ghost predicate Ready(cache: D.Cache, v: S.Volume, toks: seq<Name>)
    reads cache
  {
    forall x :: x in Pairs(cache) && x.path <= toks ==> F.Walkable(v, x.ino, toks[|x.path|..])
  }

  lemma {:induction false} SoundReady(cache: D.Cache, v: S.Volume, toks: seq<Name>)
    requires Sound(cache, F.VolumeDirs(v)) && F.Walkable(v, ROOT, toks)
    ensures Ready(cache, v, toks)
  {
    hide F.Walkable, F.VolumeDirs, Walk, Legit, Pairs;
    forall x | x in Pairs(cache) && x.path <= toks ensures F.Walkable(v, x.ino, toks[|x.path|..]) {
      assert SoundPair(F.VolumeDirs(v), x);
      assert x.path + toks[|x.path|..] == toks;
      F.WalkableRest(v, ROOT, x.path, toks[|x.path|..]);
    }
  }

  /** `inode_get_idx_by_path` on a volume. From a sound cache the result is that
      of the uncached walk from the root, whatever the path; and the cache stays
      sound if the path keeps its long names for the end. `c` components were
      found in the cache, ending at inode `start`. */
  method IdxByPath(cache: D.Cache, v: S.Volume, path: seq<Byte>) returns (ino: nat, ghost c: nat, ghost start: nat)
    requires cache.Valid() && GoodPath(path) && Ready(cache, v, Tokens(path))
    modifies cache`nodes, cache.nodes
    ensures cache.Valid() && fresh(cache.nodes - old(cache.nodes))
    ensures var toks := Tokens(path);
            && c <= |toks| && Pair(toks[..c], start) in old(Pairs(cache))
            && ino == Walk(F.VolumeDirs(v), start, toks[c..])
            && Pairs(cache)
               == old(Pairs(cache)) + SeqSet(Inserted(F.VolumeDirs(v), start, toks[..c], toks[c..]))
    ensures c == 0 && Tokens(path) != [] && path[1..] != [] && path[1] != SLASH ==>
              forall x :: x in old(Pairs(cache)) ==> x.path != [Tokens(path)[0]]
    ensures old(Sound(cache, F.VolumeDirs(v))) ==> ino == Walk(F.VolumeDirs(v), ROOT, Tokens(path))
    ensures old(Sound(cache, F.VolumeDirs(v))) ==>
              (Sound(cache, F.VolumeDirs(v)) <==> KeepsSound(F.VolumeDirs(v), Tokens(path)))
    ensures old(Sound(cache, F.VolumeDirs(v))) && ThroughDirs(F.VolumeDirs(v), ROOT, Tokens(path))
            && LongNamesLast(Tokens(path)) ==>
              Sound(cache, F.VolumeDirs(v))
  {
    hide Tokens, D.Ring, D.Placed, D.NulFree, Inserted, Walk, Legit, KeepsSound, AllSound, SoundPair,
         ThroughDirs, LongNamesLast, F.VolumeDirs, F.Walkable;
    ghost var toks, pairs, d := Tokens(path), Pairs(cache), F.VolumeDirs(v);
    ghost var ring := cache.root.ring;
    assert forall e :: e in cache.nodes && |e.path| == 1 ==> e in ring && e.name == e.path[0] by {
      forall e | e in cache.nodes && |e.path| == 1 ensures e in ring && e.name == e.path[0] {
        FirstLevel(cache, e);
      }
    }
    var entry, pos;
    entry, pos, c := GetCached(cache, path);
    var at := cache.At(entry);
    start := at.inode;
    assert Pair(toks[..c], start) in pairs;
    ShortPath(cache, at);
    ino := WalkOn(cache, v, path, pos, at.inode, entry, toks, c);
    if AllSound(d, pairs) {
      CachedWalk(d, pairs, toks, c, start);
      CacheStaysSound(d, pairs, toks, c, start);
      if ThroughDirs(d, ROOT, toks) && LongNamesLast(toks) {
        LongNamesLastSafe(d, toks);
      }
    }
  }

  /** A path that a run may look up on the volume. */
  ghost predicate GoodRequest(v: S.Volume, path: seq<Byte>) {
    GoodPath(path) && F.Walkable(v, ROOT, Tokens(path))
  }

  /** A path that leaves a sound cache sound. */
  ghost predicate SafeRequest(v: S.Volume, path: seq<Byte>) {
    ThroughDirs(F.VolumeDirs(v), ROOT, Tokens(path)) && LongNamesLast(Tokens(path))
  }

  /** Whole runs: after `inode_init`, any number of lookups all return what
      uncached walks return, if the paths before the last one are safe. */
  method RunLookups(v: S.Volume, paths: seq<seq<Byte>>) returns (results: seq<nat>)
    requires forall i :: 0 <= i < |paths| ==> GoodRequest(v, paths[i])
    requires forall i :: 0 <= i < |paths| - 1 ==> SafeRequest(v, paths[i])
    ensures |results| == |paths|
    ensures forall i :: 0 <= i < |paths| ==> results[i] == Walk(F.VolumeDirs(v), 2, Tokens(paths[i]))
  {
    hide Tokens, D.Ring, D.Placed, Inserted, GoodPath, Walk, Legit, KeepsSound, AllSound, SoundPair,
         ThroughDirs, LongNamesLast, F.VolumeDirs, F.Walkable;
    var cache := new D.Cache(ROOT);
    ghost var d := F.VolumeDirs(v);
    results := [];
    StartSound(cache, d);
    while |results| < |paths|
      invariant |results| <= |paths|
      invariant fresh(cache) && fresh(cache.nodes) && cache.Valid()
      invariant |results| < |paths| ==> Sound(cache, d)
      invariant forall i :: 0 <= i < |results| ==> results[i] == Walk(d, ROOT, Tokens(paths[i]))
    {
      var path := paths[|results|];
      assert GoodRequest(v, path) && (|results| + 1 < |paths| ==> SafeRequest(v, path));
      SoundReady(cache, v, Tokens(path));
      var ino, _, _ := IdxByPath(cache, v, path);
      results := results + [ino];
    }
  }

  lemma {:induction false} StartSound(cache: D.Cache, d: Dirs)
    requires forall x :: x in Pairs(cache) ==> x == Pair([], ROOT)
    ensures Sound(cache, d)
  {
  }

  // ---- The failing runs ----

  lemma {:induction false} SplitToken(t: Name, rest: seq<Byte>)
    requires t != [] && (forall i :: 0 <= i < |t| ==> t[i] != SLASH) && (rest != [] ==> rest[0] == SLASH)
    ensures Tokens(t + rest) == [t] + Tokens(rest)
  {
    var n := TokLen(t + rest);
    assert forall i :: 0 <= i < |t| ==> (t + rest)[i] == t[i];
    assert rest != [] ==> (t + rest)[|t|] == rest[0];
    assert n == |t|;
    assert (t + rest)[..n] == t && (t + rest)[n..] == rest;
  }

  /** Components are nonempty pieces of the path without slashes. */
  lemma {:induction false} TokensClean(s: seq<Byte>, i: nat)
    requires D.NulFree(s) && i < |Tokens(s)|
    ensures Tokens(s)[i] != [] && D.NulFree(Tokens(s)[i])
    ensures forall j :: 0 <= j < |Tokens(s)[i]| ==> Tokens(s)[i][j] != SLASH
    decreases |s|
  {
    if s[0] == SLASH {
      TokensClean(s[1..], i);
    } else {
      var n := TokLen(s);
      if i > 0 {
        TokensClean(s[n..], i - 1);
      }
    }
  }

  /** The path `/t`. */
  function OneStep(t: Name): seq<Byte> { [SLASH] + t }

  lemma {:induction false} OneStepTokens(path: seq<Byte>, i: nat)
    requires GoodPath(path) && i < |Tokens(path)|
    ensures var p := OneStep(Tokens(path)[i]);
            && GoodPath(p) && Tokens(p) == [Tokens(path)[i]] && p[1..] != [] && p[1] != SLASH
  {
    hide TokLen;
    var t := Tokens(path)[i];
    TokensClean(path, i);
    var p := OneStep(t);
    assert p[1..] == t + [];
    SplitToken(t, []);
    assert Tokens([]) == [];
    TokensSlash(p);
  }

  lemma {:induction false} InsertedSome(d: Dirs, ino: nat, dc: seq<Name>, toks: seq<Name>)
    ensures forall x :: x in Inserted(d, ino, dc, toks) ==> x.ino != 0 && x.path != []
    decreases toks
  {
    if toks != [] && d.find(ino, toks[0]) != 0 {
      var x, t := d.find(ino, toks[0]), toks[0];
      InsertedSome(d, x, dc, toks[1..]);
      InsertedSome(d, x, [], toks[1..]);
      InsertedSome(d, x, dc + [t], toks[1..]);
    }
  }

  /** After any path that resolves as far as a short name behind a long one has
      been looked up on a fresh cache, that short name is found in the root
      directory, on every volume whose root does not hold it. */
  method PoisonedRun(v: S.Volume, path: seq<Byte>, i: nat) returns (first: nat, second: nat)
    requires GoodRequest(v, path) && ThroughDirs(F.VolumeDirs(v), ROOT, Tokens(path)) && i + 1 < |Tokens(path)|
    requires Long(Tokens(path)[i]) && !Long(Tokens(path)[i + 1])
    requires Walk(F.VolumeDirs(v), ROOT, Tokens(path)[..i + 2]) != 0
    requires F.VolumeDirs(v).find(ROOT, Tokens(path)[i + 1]) == 0
    ensures first == Walk(F.VolumeDirs(v), ROOT, Tokens(path))
    ensures second != 0
    ensures var short := OneStep(Tokens(path)[i + 1]);
            GoodPath(short) && Tokens(short) == [Tokens(path)[i + 1]]
            && Walk(F.VolumeDirs(v), ROOT, Tokens(short)) == 0
  {
    hide Tokens, D.Ring, D.Placed, D.NulFree, Inserted, Walk, Legit, KeepsSound, SoundPair, GoodPath, OneStep,
         ThroughDirs, LongNamesLast, F.VolumeDirs, F.Walkable, Long;
    ghost var d, toks := F.VolumeDirs(v), Tokens(path);
    var short := OneStep(Tokens(path)[i + 1]);
    ghost var t := toks[i + 1];
    OneStepTokens(path, i + 1);
    LegitOne(d, ROOT, t);
    var cache := new D.Cache(ROOT);
    assert Pairs(cache) == {Pair([], ROOT)};
    StartSound(cache, d);
    SoundReady(cache, v, toks);
    ghost var c, start;
    first, c, start := IdxByPath(cache, v, path);
    assert c == 0 && start == ROOT by { assert Pair(toks[..c], start) == Pair([], ROOT); }
    assert toks[0..] == toks && toks[..0] == [];
    Misplaced(d, ROOT, [], toks, i);
    InsertedSome(d, ROOT, [], toks);
    PoisonReady(cache, v, toks, t);
    second, c, start := IdxByPath(cache, v, short);
    ghost var one: seq<Name> := [t];
    assert c == 1 && one[..1] == one && one[1..] == [];
    AtLastToken(d, start, [], [t]);
  }

  lemma {:induction false} PoisonReady(cache: D.Cache, v: S.Volume, toks: seq<Name>, t: Name)
    requires F.Walkable(v, ROOT, toks) && toks != [] && F.VolumeDirs(v).find(ROOT, t) == 0
    requires forall x :: x in Pairs(cache) && x.path == [] ==> x.ino == ROOT
    ensures Ready(cache, v, [t])
  {
    hide F.GoodDirAt, F.VolumeDirs, Pairs;
    forall x | x in Pairs(cache) && x.path <= [t] ensures F.Walkable(v, x.ino, [t][|x.path|..]) {
      assert [t][0..] == [t] && [t][1..] == [];
    }
  }
}
