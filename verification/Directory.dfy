/** Directory contents: the one-block buffer of fuse/inode.c, the scan of path
    lookup, and `op_readdir` with its resumption by offset. */
module Directory {
  import opened Machine

  /** A directory file: its block size, its length, and how one of its blocks
      is fetched. */
  datatype Dir = Dir(bs: nat, size: nat, block: nat -> Outcome<seq<Byte>>)

  /** `struct ext4_dir_entry_2`. */
  datatype Record = Record(inode: nat, recLen: nat, name: Name)

  // ---- The flat contents ----

  predicate HasRecord(s: seq<Byte>, o: nat) { o + 8 <= |s| && o + 8 + s[o + 6] as int <= |s| }

  function ParseRecord(s: seq<Byte>, o: nat): Record
    requires HasRecord(s, o)
  {
    Record(LE32(s, o), LE16(s, o + 4), s[o + 8..o + 8 + s[o + 6] as int])
  }

  /** A record at `o` that lies inside one block and inside the contents. */
  predicate Fits(s: seq<Byte>, bs: nat, o: nat)
    requires bs >= 1
  {
    && HasRecord(s, o)
    && var r := ParseRecord(s, o);
       8 + |r.name| <= r.recLen && o % bs + r.recLen <= bs && o + r.recLen <= |s|
  }

  /** From `o` on the records tile the contents, none crossing a block. */
  predicate Tiled(s: seq<Byte>, bs: nat, o: nat)
    requires bs >= 1
    decreases |s| - o
  {
    o == |s| || (Fits(s, bs, o) && Tiled(s, bs, o + ParseRecord(s, o).recLen))
  }

  /** The records from `o` on, in order. */
  function Records(s: seq<Byte>, bs: nat, o: nat): seq<Record>
    requires bs >= 1 && Tiled(s, bs, o)
    decreases |s| - o
  {
    if o == |s| then [] else [ParseRecord(s, o)] + Records(s, bs, o + ParseRecord(s, o).recLen)
  }

  /** The inode number of the first live record with this name, or 0. */
  function Find(rs: seq<Record>, name: Name): nat {
    if rs == [] then 0
    else if Matches(rs[0], name) then rs[0].inode
    else Find(rs[1..], name)
  }

  predicate Matches(r: Record, name: Name) { r.inode != 0 && r.name == name }

  // ---- The buffer ----

  /** The blocks of `dir` hold the contents `s`. */
  ghost predicate Backed(dir: Dir, s: seq<Byte>) {
    && dir.bs >= 1 && |s| == dir.size < TWO32
    && dir.block(0).Ok?
    && (forall l :: dir.block(l).Ok? ==> |dir.block(l).value| == dir.bs)
    && (forall o :: 0 <= o < |s| ==> ByteBacked(dir, s, o))
  }

  /** Byte `o` of the contents is in its block. */
  predicate ByteBacked(dir: Dir, s: seq<Byte>, o: nat)
    requires dir.bs >= 1 && o < |s|
  {
    var b := dir.block(o / dir.bs);
    b.Ok? && o % dir.bs < |b.value| && b.value[o % dir.bs] == s[o]
  }

  /** `struct inode_dir_ctx`. */
  class DirCtx {
    var lblock: nat
    var buf: array<Byte>

    /** The buffer holds the block that `lblock` names. */
    ghost predicate Holds(dir: Dir)
      reads this, buf
    {
      && buf.Length == dir.bs
      && dir.block(lblock).Ok? && buf[..] == dir.block(lblock).value
    }

    /** `inode_dir_ctx_get`: the buffer is not filled yet. */
    constructor (dir: Dir)
      ensures buf.Length == dir.bs && fresh(buf)
    {
      lblock := 0;
      buf := new Byte[dir.bs];
    }

    /** `dir_ctx_update`. */
    method Update(dir: Dir, l: nat) returns (ok: bool)
      requires buf.Length == dir.bs
      requires dir.block(l).Ok? ==> |dir.block(l).value| == dir.bs
      modifies this`lblock, buf
      ensures ok <==> dir.block(l).Ok?
      ensures ok ==> Holds(dir) && lblock == l
    {
      var s := dir.block(l);
      if s.Abort? {
        return false;
      }
      forall i | 0 <= i < buf.Length {
        buf[i] := s.value[i];
      }
      lblock := l;
      ok := true;
    }

    /** `inode_dentry_get`: the position in the buffer of the record at
        `offset`, nothing at the end of the directory. It calls itself at most
        once, after loading the block. */
    method DentryGet(dir: Dir, offset: nat, ghost s: seq<Byte>) returns (r: Outcome<Option<nat>>)
      requires Backed(dir, s) && Holds(dir)
      modifies this`lblock, buf
      ensures offset > |s| ==> r.Abort?
      ensures offset == |s| ==> r == Ok(None)
      ensures offset < |s| ==> r == Ok(Some(offset % dir.bs)) && lblock == offset / dir.bs
      ensures Holds(dir)
      decreases if lblock == U32(offset / dir.bs) then 0 else 1
    {
      var l := U32(offset / dir.bs);
      if dir.size < offset {
        return Abort;
      }
      if dir.size == offset {
        return Ok(None);
      }
      assert l == offset / dir.bs by { DivAtMost(offset, dir.bs); }
      assert ByteBacked(dir, s, offset);
      if l == lblock {
        r := Ok(Some(offset % dir.bs));
      } else {
        var ok := Update(dir, l);
        r := DentryGet(dir, offset, s);
      }
    }
  }

  lemma {:induction false} DivAtMost(n: nat, bs: nat)
    requires bs >= 1
    ensures 0 <= n / bs <= n
    ensures n < TWO32 ==> U32(n / bs) == n / bs
  {
    assert n == n / bs * bs + n % bs;
    assert n / bs * bs >= n / bs by { MulAtLeast'(n / bs, bs); }
  }

  lemma {:induction false} MulAtLeast'(q: nat, m: nat)
    requires m >= 1
    ensures q * m >= q
  {
    assert q * m == q + q * (m - 1);
  }

  /** A stretch inside one block reads the same from the buffer as from the
      flat contents. */
  lemma {:induction false} BlockWindow(dir: Dir, s: seq<Byte>, o: nat, n: nat)
    requires Backed(dir, s) && dir.bs >= 1 && n >= 1 && o % dir.bs + n <= dir.bs && o + n <= |s|
    ensures var b, at := dir.block(o / dir.bs), o % dir.bs;
            b.Ok? && |b.value| == dir.bs && b.value[at..at + n] == s[o..o + n]
  {
    var bs, at := dir.bs, o % dir.bs;
    assert ByteBacked(dir, s, o);
    var b := dir.block(o / bs).value;
    forall j | o <= j < o + n ensures b[at + (j - o)] == s[j] {
      SameBlockOffset(o, j - o, bs);
      assert ByteBacked(dir, s, j);
    }
  }

  /** A record is determined by the bytes it occupies. */
  lemma {:induction false} WindowRecord(b: seq<Byte>, at: nat, s: seq<Byte>, o: nat, n: nat)
    requires at + n <= |b| && o + n <= |s| && b[at..at + n] == s[o..o + n]
    requires HasRecord(s, o) && 8 + |ParseRecord(s, o).name| <= n
    ensures HasRecord(b, at) && ParseRecord(b, at) == ParseRecord(s, o)
  {
    var w := s[o..o + n];
    assert forall i :: 0 <= i < n ==> w[i] == s[o + i] && w[i] == b[at + i];
    assert s[o + 6] == w[6] == b[at + 6];
    var k := s[o + 6] as int;
    assert s[o + 8..o + 8 + k] == w[8..8 + k] == b[at + 8..at + 8 + k];
    assert LE32(b, at) == LE32(w, 0) == LE32(s, o);
    assert LE16(b, at + 4) == LE16(w, 4) == LE16(s, o + 4);
  }

  lemma {:induction false} BufferedRecord(dir: Dir, s: seq<Byte>, o: nat)
    requires Backed(dir, s) && dir.bs >= 1 && Fits(s, dir.bs, o)
    ensures var b := dir.block(o / dir.bs);
            b.Ok? && HasRecord(b.value, o % dir.bs) && ParseRecord(b.value, o % dir.bs) == ParseRecord(s, o)
  {
    hide Backed, ParseRecord;
    var n := ParseRecord(s, o).recLen;
    BlockWindow(dir, s, o, n);
    WindowRecord(dir.block(o / dir.bs).value, o % dir.bs, s, o, n);
  }

  lemma {:induction false} BackedSize(dir: Dir, s: seq<Byte>)
    requires Backed(dir, s)
    ensures dir.bs >= 1 && |s| == dir.size < TWO32
  {
  }

  lemma {:induction false} SameBlockOffset(o: nat, i: nat, bs: nat)
    requires bs >= 1 && o % bs + i < bs
    ensures (o + i) / bs == o / bs && (o + i) % bs == o % bs + i
  {
    assert o + i == o / bs * bs + (o % bs + i);
    ModUnique(o + i, o / bs, bs, o % bs + i);
  }

  // ---- Looking a name up ----

  lemma {:induction false} TiledStep(s: seq<Byte>, bs: nat, o: nat)
    requires bs >= 1 && Tiled(s, bs, o) && o < |s|
    ensures Fits(s, bs, o)
    ensures var next := o + ParseRecord(s, o).recLen;
            && o < next <= |s| && Tiled(s, bs, next)
            && Records(s, bs, o) == [ParseRecord(s, o)] + Records(s, bs, next)
  {
    hide ParseRecord;
  }

  lemma {:induction false} FindStep(r: Record, rest: seq<Record>, name: Name)
    ensures Find([r] + rest, name) == if Matches(r, name) then r.inode else Find(rest, name)
  {
    assert ([r] + rest)[1..] == rest;
  }

  /** The directory loop of `inode_get_idx_by_path`: through the one-block
      buffer it finds what the flat list of records says. */
  method Lookup(dir: Dir, name: Name, ghost s: seq<Byte>) returns (ino: nat)
    requires Backed(dir, s) && Tiled(s, dir.bs, 0)
    ensures ino == Find(Records(s, dir.bs, 0), name)
  {
    hide ParseRecord, HasRecord, Tiled, Records, Fits, Find, Matches, Backed, U32;
    BackedSize(dir, s);
    var ctx := new DirCtx(dir);
    assert dir.block(0).Ok? && |dir.block(0).value| == dir.bs by { BackedStart(dir, s); }
    var ok := ctx.Update(dir, 0);
    var offset: nat := 0;
    while true
      invariant fresh(ctx) && fresh(ctx.buf) && ctx.Holds(dir)
      invariant offset <= |s| && Tiled(s, dir.bs, offset)
      invariant Find(Records(s, dir.bs, 0), name) == Find(Records(s, dir.bs, offset), name)
      decreases |s| - offset
    {
      var at := ctx.DentryGet(dir, offset, s);
      if at.value.None? {
        assert Records(s, dir.bs, |s|) == [] && Find([], name) == 0 by { AtEnd(s, dir.bs, name); }
        return 0;
      }
      TiledStep(s, dir.bs, offset);
      BufferedRecord(dir, s, offset);
      var dentry := ParseRecord(ctx.buf[..], at.value.value);
      FindStep(dentry, Records(s, dir.bs, offset + dentry.recLen), name);
      U32Small(offset + dentry.recLen);
      offset := U32(offset + dentry.recLen);
      MatchesMeaning(dentry, name);
      if dentry.inode == 0 {
        continue;
      }
      if |name| != |dentry.name| {
        continue;
      }
      if name != dentry.name {
        continue;
      }
      return dentry.inode;
    }
  }

  lemma {:induction false} BackedStart(dir: Dir, s: seq<Byte>)
    requires Backed(dir, s)
    ensures dir.block(0).Ok? && |dir.block(0).value| == dir.bs
  {
  }

  lemma {:induction false} AtEnd(s: seq<Byte>, bs: nat, name: Name)
    requires bs >= 1
    ensures Tiled(s, bs, |s|) && Records(s, bs, |s|) == [] && Listing(s, bs, |s|) == [] && Find([], name) == 0
  {
  }

  lemma {:induction false} MatchesMeaning(r: Record, name: Name)
    ensures Matches(r, name) <==> r.inode != 0 && |name| == |r.name| && name == r.name
  {
  }

  // ---- Listing a directory ----

  /** What the filler receives: a name, and where the next call resumes. */
  datatype Listed = Listed(name: Name, next: nat)

  /** The C string in a name buffer. */
  function Printable(name: Name): (s: Name)
    ensures s <= name && (forall i :: 0 <= i < |s| ==> s[i] != 0)
    ensures |s| < |name| ==> name[|s|] == 0
  {
    if name == [] || name[0] == 0 then [] else [name[0]] + Printable(name[1..])
  }

  predicate Shown(r: Record) { r.inode != 0 && Printable(r.name) != [] }

  /** Everything an unbounded filler receives from offset `o` on. */
  function Listing(s: seq<Byte>, bs: nat, o: nat): seq<Listed>
    requires bs >= 1 && Tiled(s, bs, o)
    decreases |s| - o
  {
    if o == |s| then []
    else
      var r := ParseRecord(s, o);
      var next := o + r.recLen;
      (if Shown(r) then [Listed(Printable(r.name), next)] else []) + Listing(s, bs, next)
  }

  function Take<T>(s: seq<T>, n: nat): seq<T> { if n <= |s| then s[..n] else s }

  lemma {:induction false} ListingStep(s: seq<Byte>, bs: nat, o: nat)
    requires bs >= 1 && Tiled(s, bs, o) && o < |s|
    ensures var r := ParseRecord(s, o);
            var next := o + r.recLen;
            && HasRecord(s, o) && o < next <= |s| && Tiled(s, bs, next)
            && Listing(s, bs, o) ==
               (if Shown(r) then [Listed(Printable(r.name), next)] else []) + Listing(s, bs, next)
  {
    hide ParseRecord, Shown, Printable;
  }

  /** `op_readdir` with a filler that has room for `room` entries: it delivers
      the first `room` entries of the listing from `offset0` on. */
  method OpReaddir(dir: Dir, offset0: nat, room: nat, ghost s: seq<Byte>) returns (listed: seq<Listed>)
    requires Backed(dir, s) && offset0 <= |s| && Tiled(s, dir.bs, offset0)
    ensures listed == Take(Listing(s, dir.bs, offset0), room)
  {
    hide ParseRecord, HasRecord, Tiled, Records, Fits, Listing, Backed, Printable;
    BackedSize(dir, s);
    var ctx := new DirCtx(dir);
    assert dir.block(0).Ok? && |dir.block(0).value| == dir.bs by { BackedStart(dir, s); }
    var ok := ctx.Update(dir, 0);
    var offset: nat := offset0;
    listed := [];
    ghost var goal := Listing(s, dir.bs, offset0);
    assert [] + goal == goal;
    while true
      invariant fresh(ctx) && fresh(ctx.buf) && ctx.Holds(dir)
      invariant offset <= |s| && Tiled(s, dir.bs, offset)
      invariant |listed| <= room && goal == listed + Listing(s, dir.bs, offset)
      decreases |s| - offset
    {
      var at := ctx.DentryGet(dir, offset, s);
      if at.value.None? {
        assert Listing(s, dir.bs, |s|) == [] by { AtEnd(s, dir.bs, []); }
        assert goal == listed;
        return;
      }
      TiledStep(s, dir.bs, offset);
      BufferedRecord(dir, s, offset);
      ListingStep(s, dir.bs, offset);
      var dentry := ParseRecord(ctx.buf[..], at.value.value);
      offset := offset + dentry.recLen;
      ghost var rest := Listing(s, dir.bs, offset);
      if dentry.inode == 0 {
        assert [] + rest == rest;
        continue;
      }
      var name := Printable(dentry.name);
      if name != [] {
        if |listed| == room {
          assert goal[..room] == listed;
          return;
        }
        assert listed + ([Listed(name, offset)] + rest) == (listed + [Listed(name, offset)]) + rest;
        listed := listed + [Listed(name, offset)];
      } else {
        assert [] + rest == rest;
      }
    }
  }

  // ---- Resumption ----

  /** The offset delivered with an entry resumes right behind that entry. */
  lemma {:induction false} ResumeBehind(s: seq<Byte>, bs: nat, o: nat, i: nat)
    requires bs >= 1 && Tiled(s, bs, o) && i < |Listing(s, bs, o)|
    ensures var p := Listing(s, bs, o)[i].next;
            o < p <= |s| && Tiled(s, bs, p) && Listing(s, bs, p) == Listing(s, bs, o)[i + 1..]
    decreases |s| - o
  {
    hide Listing, Tiled, ParseRecord, HasRecord, Shown, Printable;
    TiledBound(s, bs, o);
    if o == |s| {
      AtEnd(s, bs, []);
    } else {
      ListingStep(s, bs, o);
      var r := ParseRecord(s, o);
      var next := o + r.recLen;
      var rest := Listing(s, bs, next);
      if !Shown(r) {
        assert [] + rest == rest;
        ResumeBehind(s, bs, next, i);
      } else if i > 0 {
        var e := [Listed(Printable(r.name), next)];
        assert (e + rest)[i] == rest[i - 1];
        ResumeBehind(s, bs, next, i - 1);
        assert (e + rest)[i + 1..] == rest[i..];
      } else {
        assert ([Listed(Printable(r.name), next)] + rest)[1..] == rest;
      }
    }
  }

  lemma {:induction false} TiledBound(s: seq<Byte>, bs: nat, o: nat)
    requires bs >= 1 && Tiled(s, bs, o)
    ensures o <= |s|
  {
    hide ParseRecord;
  }

  function Sum(ns: seq<nat>): nat { if ns == [] then 0 else ns[0] + Sum(ns[1..]) }

  /** A series of `op_readdir` calls with fillers of the given sizes, each
      starting at the offset delivered with the last entry accepted. */
  function ReaddirRun(s: seq<Byte>, bs: nat, o: nat, rooms: seq<nat>): seq<Listed>
    requires bs >= 1 && Tiled(s, bs, o)
    decreases rooms
  {
    if rooms == [] then []
    else
      var got := Take(Listing(s, bs, o), rooms[0]);
      if got == [] then ReaddirRun(s, bs, o, rooms[1..])
      else
        ResumeBehind(s, bs, o, |got| - 1);
        got + ReaddirRun(s, bs, got[|got| - 1].next, rooms[1..])
  }

  lemma {:induction false} NoRoom<T>(s: seq<T>)
    ensures Take(s, 0) == []
  {
  }

  lemma {:induction false} TakeSplit<T>(s: seq<T>, a: nat, b: nat)
    ensures var got := Take(s, a);
            |got| <= |s| && got + Take(s[|got|..], b) == Take(s, a + b)
  {
  }

  /** However the fillers cut it up, the listing comes out whole: nothing is
      lost or repeated. */
  lemma {:induction false} ResumableListing(s: seq<Byte>, bs: nat, o: nat, rooms: seq<nat>)
    requires bs >= 1 && Tiled(s, bs, o)
    ensures ReaddirRun(s, bs, o, rooms) == Take(Listing(s, bs, o), Sum(rooms))
    decreases rooms
  {
    hide Listing, Tiled;
    NoRoom(Listing(s, bs, o));
    if rooms != [] {
      var all := Listing(s, bs, o);
      var got := Take(all, rooms[0]);
      if got == [] {
        ResumableListing(s, bs, o, rooms[1..]);
      } else {
        ResumeBehind(s, bs, o, |got| - 1);
        var p := got[|got| - 1].next;
        ResumableListing(s, bs, p, rooms[1..]);
        TakeSplit(all, rooms[0], Sum(rooms[1..]));
      }
    }
  }

  /** Calls that accept at least one entry each deliver the whole listing
      after at most as many calls as it has entries. */
  lemma {:induction false} EnoughCalls(s: seq<Byte>, bs: nat, o: nat, rooms: seq<nat>)
    requires bs >= 1 && Tiled(s, bs, o)
    requires (forall i :: 0 <= i < |rooms| ==> rooms[i] >= 1) && |rooms| >= |Listing(s, bs, o)|
    ensures ReaddirRun(s, bs, o, rooms) == Listing(s, bs, o)
  {
    SumAtLeast(rooms);
    ResumableListing(s, bs, o, rooms);
  }

  lemma {:induction false} SumAtLeast(rooms: seq<nat>)
    requires forall i :: 0 <= i < |rooms| ==> rooms[i] >= 1
    ensures Sum(rooms) >= |rooms|
  {
    if rooms != [] {
      SumAtLeast(rooms[1..]);
    }
  }

  lemma {:induction false} RunStep(s: seq<Byte>, bs: nat, o: nat, rooms: seq<nat>, i: nat)
    requires bs >= 1 && Tiled(s, bs, o) && i < |rooms|
    ensures var got := Take(Listing(s, bs, o), rooms[i]);
            if got == [] then ReaddirRun(s, bs, o, rooms[i..]) == ReaddirRun(s, bs, o, rooms[i + 1..])
            else
              var p := got[|got| - 1].next;
              && o < p <= |s| && Tiled(s, bs, p)
              && ReaddirRun(s, bs, o, rooms[i..]) == got + ReaddirRun(s, bs, p, rooms[i + 1..])
  {
    hide Listing, Tiled;
    assert rooms[i..][0] == rooms[i] && rooms[i..][1..] == rooms[i + 1..];
    var got := Take(Listing(s, bs, o), rooms[i]);
    if got != [] {
      ResumeBehind(s, bs, o, |got| - 1);
    }
  }

  /** Calls of `op_readdir` as the kernel makes them, each resumed at the offset
      that came with the last entry accepted: together they deliver what one
      uninterrupted call would, as far as the fillers have room. */
  method ListInPieces(dir: Dir, rooms: seq<nat>, ghost s: seq<Byte>) returns (listed: seq<Listed>)
    requires Backed(dir, s) && Tiled(s, dir.bs, 0)
    ensures listed == Take(Listing(s, dir.bs, 0), Sum(rooms))
  {
    hide Listing, Tiled, ReaddirRun, Backed, Sum;
    BackedSize(dir, s);
    ResumableListing(s, dir.bs, 0, rooms);
    ghost var goal := ReaddirRun(s, dir.bs, 0, rooms);
    listed := [];
    var offset := 0;
    assert rooms[0..] == rooms && [] + goal == goal;
    for i := 0 to |rooms|
      invariant 0 <= offset <= |s| && Tiled(s, dir.bs, offset)
      invariant goal == listed + ReaddirRun(s, dir.bs, offset, rooms[i..])
    {
      RunStep(s, dir.bs, offset, rooms, i);
      var got := OpReaddir(dir, offset, rooms[i], s);
      if got != [] {
        offset := got[|got| - 1].next;
        listed := listed + got;
      }
    }
    NoMoreCalls(s, dir.bs, offset, rooms);
  }

  lemma {:induction false} NoMoreCalls(s: seq<Byte>, bs: nat, o: nat, rooms: seq<nat>)
    requires bs >= 1 && Tiled(s, bs, o)
    ensures ReaddirRun(s, bs, o, rooms[|rooms|..]) == []
  {
  }

  // ---- Listing and lookup agree ----

  predicate Clean(name: Name) { name != [] && forall i :: 0 <= i < |name| ==> name[i] != 0 }

  lemma {:induction false} CleanPrintable(name: Name)
    requires forall i :: 0 <= i < |name| ==> name[i] != 0
    ensures Printable(name) == name
  {
    if name != [] {
      CleanPrintable(name[1..]);
    }
  }

  ghost predicate CleanDir(s: seq<Byte>, bs: nat, o: nat)
    requires bs >= 1 && Tiled(s, bs, o)
  {
    forall r :: r in Records(s, bs, o) && r.inode != 0 ==> Clean(r.name)
  }

  /** A name is listed iff path lookup finds it. */
  lemma {:induction false} ListingAgrees(s: seq<Byte>, bs: nat, o: nat, name: Name)
    requires bs >= 1 && Tiled(s, bs, o) && CleanDir(s, bs, o)
    ensures (exists e :: e in Listing(s, bs, o) && e.name == name) <==> Find(Records(s, bs, o), name) != 0
    decreases |s| - o
  {
    if o == |s| {
      AtEnd(s, bs, name);
    } else {
      TiledBound(s, bs, o);
      TiledStep(s, bs, o);
      ListingStep(s, bs, o);
      hide Listing, Tiled, ParseRecord, HasRecord, Records, Fits, Find;
      var r := ParseRecord(s, o);
      var next := o + r.recLen;
      assert CleanDir(s, bs, next) && (r.inode != 0 ==> Clean(r.name)) by {
        assert Records(s, bs, o) == [r] + Records(s, bs, next);
      }
      ListingAgrees(s, bs, next, name);
      FindStep(r, Records(s, bs, next), name);
      if r.inode != 0 {
        CleanPrintable(r.name);
        assert Listed(r.name, next) in Listing(s, bs, o);
      }
      assert forall e :: e in Listing(s, bs, next) ==> e in Listing(s, bs, o);
    }
  }

  /** With unique live names, lookup returns the inode of the one record that
      carries the name. */
  lemma {:induction false} FindUnique(rs: seq<Record>, i: nat)
    requires i < |rs| && rs[i].inode != 0
    requires forall j :: 0 <= j < |rs| && j != i ==> !Matches(rs[j], rs[i].name)
    ensures Find(rs, rs[i].name) == rs[i].inode
  {
    if i > 0 {
      FindUnique(rs[1..], i - 1);
    }
  }
}
