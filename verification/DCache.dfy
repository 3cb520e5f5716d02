/** The directory entry cache of fuse/dcache.c: a tree whose nodes keep their
    children in a circular sibling list and point at one of them. */
module DCache {
  import opened Machine

  /** `DCACHE_ENTRY_NAME_LEN` on a 64-bit build. */
  const NAME_LEN: nat := 40

  predicate NulFree(name: Name) { forall i :: 0 <= i < |name| ==> name[i] != 0 }

  /** The zero-padded name buffer that holds `name`. */
  function Stored(name: Name): (buf: seq<Byte>)
    requires |name| < NAME_LEN
    ensures |buf| == NAME_LEN
  {
    name + seq(NAME_LEN - |name|, _ => 0)
  }

  /** The test in `dcache_lookup`: `strncmp` over the buffer, then a look at
      the byte behind the name. Both stop at the buffer's terminator, so a
      name of any length stays inside the buffer. */
  method NameMatches(buf: seq<Byte>, name: Name, ghost held: Name) returns (same: bool)
    requires |held| < NAME_LEN && NulFree(held) && buf == Stored(held) && NulFree(name)
    ensures same <==> held == name
  {
    var i := 0;
    while i < |name|
      invariant 0 <= i <= |name| && i <= |held|
      invariant held[..i] == name[..i]
    {
      assert i < NAME_LEN;
      assert i < |held| ==> buf[i] == held[i];
      if buf[i] != name[i] {
        return false;
      }
      assert i < |held| && buf[i] == held[i];
      i := i + 1;
    }
    assert name == held[..|name|];
    same := buf[|name|] == 0;
  }

  class Entry {
    var childs: Entry?
    var siblings: Entry?
    const inode: nat
    const buf: seq<Byte>

    /** The children in sibling order, starting from `childs`. */
    ghost var ring: seq<Entry>
    ghost const name: Name
    ghost const parent: Entry?
    ghost const path: seq<Name>

    constructor (name: Name, inode: nat, ghost parent: Entry?, ghost path: seq<Name>)
      requires |name| < NAME_LEN
      ensures this.childs == null && this.siblings == null && this.ring == []
      ensures this.inode == inode && this.name == name && this.buf == Stored(name)
      ensures this.parent == parent && this.path == path
    {
      this.childs, this.siblings, this.ring := null, null, [];
      this.inode, this.buf, this.name := inode, Stored(name), name;
      this.parent, this.path := parent, path;
    }
  }

  /** The children of `e` form one cycle through `siblings` that starts at
      `childs`, and they are distinct. */
  ghost predicate Ring(e: Entry, nodes: set<Entry>)
    reads e, nodes
  {
    && (e.ring == [] ==> e.childs == null)
    && (e.ring != [] ==> e.childs == e.ring[0])
    && (forall i :: 0 <= i < |e.ring| ==> e.ring[i] in nodes && e.ring[i].parent == e)
    && (forall i :: 0 <= i < |e.ring| ==> e.ring[i].siblings == e.ring[if i + 1 < |e.ring| then i + 1 else 0])
    && (forall i, j :: 0 <= i < j < |e.ring| ==> e.ring[i] != e.ring[j])
  }

  /** Every entry but the root is on its parent's ring. */
  ghost predicate Placed(e: Entry, root: Entry, nodes: set<Entry>)
    reads nodes
  {
    && |e.name| < NAME_LEN && NulFree(e.name) && e.buf == Stored(e.name)
    && (e == root <==> e.parent == null)
    && (e.parent != null ==> e.parent in nodes && e in e.parent.ring && e.path == e.parent.path + [e.name])
  }

  // ---- How the invariant survives a change ----

  lemma {:induction false} EmptyRing(e: Entry, nodes: set<Entry>)
    requires e.ring == [] && e.childs == null
    ensures Ring(e, nodes)
  {
  }

  lemma {:induction false} NewlyPlaced(e: Entry, root: Entry, nodes: set<Entry>)
    requires |e.name| < NAME_LEN && NulFree(e.name) && e.buf == Stored(e.name)
    requires e != root && e.parent != null && e.parent in nodes && e in e.parent.ring
    requires e.path == e.parent.path + [e.name]
    ensures Placed(e, root, nodes)
  {
  }

  /** The step from one ring member to the next. */
  lemma {:induction false} RingAt(p: Entry, nodes: set<Entry>, i: nat)
    requires Ring(p, nodes) && i < |p.ring|
    ensures p.ring[i] in nodes && p.childs == p.ring[0]
    ensures i + 1 < |p.ring| ==> p.ring[i].siblings == p.ring[i + 1] != p.ring[0]
    ensures i + 1 == |p.ring| ==> p.ring[i].siblings == p.ring[0]
  {
  }

  lemma {:induction false} PlacedName(e: Entry, root: Entry, nodes: set<Entry>)
    requires Placed(e, root, nodes)
    ensures |e.name| < NAME_LEN && NulFree(e.name) && e.buf == Stored(e.name)
    ensures e == root <==> e.parent == null
    ensures e.parent != null ==> e.parent in nodes && e in e.parent.ring && e.path == e.parent.path + [e.name]
  {
  }

  lemma {:induction false} RingMembers(e: Entry, nodes: set<Entry>)
    requires Ring(e, nodes)
    ensures e.childs == null <==> e.ring == []
    ensures e.childs != null ==> e.childs == e.ring[0] && e.childs in nodes && e.childs.siblings != null
    ensures forall c :: c in e.ring ==> c in nodes && c.parent == e
  {
    if e.ring != [] {
      assert e.ring[0].siblings == e.ring[if 1 < |e.ring| then 1 else 0];
    }
  }

  class Cache {
    const root: Entry
    ghost var nodes: set<Entry>

    ghost predicate Valid()
      reads this, nodes
    {
      && root in nodes && root.path == []
      && (forall e :: e in nodes ==> Ring(e, nodes))
      && (forall e :: e in nodes ==> Placed(e, root, nodes))
    }

    /** `dcache_init_root` on the zeroed static root. */
    constructor (n: nat)
      ensures Valid() && nodes == {root} && fresh(root) && root.inode == n && root.ring == []
    {
      root := new Entry([], n, null, []);
      new;
      nodes := {root};
    }

    /** What validity says about each entry and its ring. */
    lemma {:induction false} AllMembers()
      requires Valid()
      ensures forall e :: e in nodes ==>
                && (e.childs == null <==> e.ring == [])
                && (e.childs != null ==> e.childs == e.ring[0] && e.childs in nodes && e.childs.siblings != null)
      ensures forall e, c :: e in nodes && c in e.ring ==> c in nodes && c.parent == e
    {
      hide Ring, Placed;
      forall e | e in nodes
        ensures e.childs == null <==> e.ring == []
        ensures e.childs != null ==> e.childs == e.ring[0] && e.childs in nodes && e.childs.siblings != null
        ensures forall c :: c in e.ring ==> c in nodes && c.parent == e
      {
        RingMembers(e, nodes);
      }
    }

    /** NULL stands for the root. */
    function At(e: Entry?): Entry
    {
      if e == null then root else e
    }

    /** `dcache_insert`: the new entry goes behind the current head and becomes
        the head. A name that does not fit is not stored. */
    method Insert(parent: Entry?, name: Name, n: nat) returns (r: Entry?)
      requires Valid() && At(parent) in nodes && NulFree(name)
      modifies this`nodes, nodes
      ensures Valid()
      ensures |name| + 1 > NAME_LEN ==> r == null && nodes == old(nodes)
      ensures |name| + 1 > NAME_LEN ==> forall e :: e in nodes ==> e.ring == old(e.ring)
      ensures |name| + 1 <= NAME_LEN ==>
                && r != null && fresh(r) && nodes == old(nodes) + {r}
                && r.inode == n && r.name == name && r.ring == []
                && r.path == At(parent).path + [name]
                && At(parent).ring == [r] + old(Turned(At(parent).ring))
                && forall e :: e in old(nodes) && e != At(parent) ==> e.ring == old(e.ring)
    {
      hide Ring, Placed;
      if |name| + 1 > NAME_LEN {
        return null;
      }
      var p := At(parent);
      ghost var ring0 := p.ring;
      AllMembers();
      var entry := new Entry(name, n, p, p.path + [name]);
      if p.childs == null {
        entry.siblings := entry;
        p.childs := entry;
      } else {
        entry.siblings := p.childs.siblings;
        p.childs.siblings := entry;
        p.childs := entry;
      }
      p.ring := [entry] + Turned(p.ring);
      nodes := nodes + {entry};
      r := entry;
      InsertKeeps(p, entry);
    }

    /** A ring whose members were not touched. */
    twostate lemma RingKept(e: Entry)
      requires old(Ring(e, nodes)) && old(nodes) <= nodes
      requires e.childs == old(e.childs) && e.ring == old(e.ring)
      requires forall c :: c in old(e.ring) ==> c.siblings == old(c.siblings)
      ensures Ring(e, nodes)
    {
    }

    /** The ring that received `c`. */
    twostate lemma RingGrown(p: Entry, new c: Entry)
      requires old(Ring(p, nodes)) && nodes == old(nodes) + {c} && c !in old(nodes) && c.parent == p
      requires p.childs == c && p.ring == [c] + Turned(old(p.ring))
      requires old(p.ring) == [] ==> c.siblings == c
      requires old(p.ring) != [] ==>
                 && c.siblings == old(p.ring[0].siblings)
                 && old(p.ring)[0].siblings == c
                 && forall i :: 1 <= i < |old(p.ring)| ==> old(p.ring)[i].siblings == old(p.ring[i].siblings)
      ensures Ring(p, nodes)
    {
      var r0, r1, n := old(p.ring), p.ring, |old(p.ring)|;
      if r0 != [] {
        assert r1[0] == c && r1[n] == r0[0] && |r1| == n + 1;
        assert forall i :: 1 <= i < n ==> r1[i] == r0[i];
        assert c.siblings == r1[1];
        forall i | 0 <= i < |r1| ensures r1[i].siblings == r1[if i + 1 < |r1| then i + 1 else 0] {
          if 1 <= i < n {
            assert old(r0[i].siblings) == r0[if i + 1 < n then i + 1 else 0];
          }
        }
        forall i, j | 0 <= i < j < |r1| ensures r1[i] != r1[j] {
        }
        assert p.ring != [] && p.childs == p.ring[0];
        forall i | 0 <= i < |r1| ensures r1[i] in nodes && r1[i].parent == p {
        }
      }
    }

    /** The same cycle entered at another of its members. */
    twostate lemma RingTurned(p: Entry, new k: nat)
      requires old(Ring(p, nodes)) && nodes == old(nodes) && k < |old(p.ring)|
      requires p.childs == old(p.ring)[k] && p.ring == Rotate(old(p.ring), k)
      requires forall c :: c in old(p.ring) ==> c.siblings == old(c.siblings)
      ensures Ring(p, nodes)
    {
      var r0, r1, n := old(p.ring), p.ring, |old(p.ring)|;
      forall i | 0 <= i < n
        ensures r1[i] == r0[if i + k < n then i + k else i + k - n]
      {
      }
      forall i | 0 <= i < n
        ensures r1[i].siblings == r1[if i + 1 < n then i + 1 else 0]
      {
        var j := if i + k < n then i + k else i + k - n;
        assert r0[j].siblings == r0[if j + 1 < n then j + 1 else 0];
      }
    }

    /** An entry stays placed while rings only gain members. */
    twostate lemma PlacedKept(e: Entry)
      requires old(Placed(e, root, nodes)) && old(nodes) <= nodes
      requires e.parent != null && e.parent in old(nodes) ==> forall c :: c in old(e.parent.ring) ==> c in e.parent.ring
      ensures Placed(e, root, nodes)
    {
    }

    /** The invariant after the stores of `Insert`. */
    twostate lemma InsertKeeps(p: Entry, new entry: Entry)
      requires old(Valid()) && p in old(nodes) && entry !in old(nodes) && nodes == old(nodes) + {entry}
      requires p.childs == entry && p.ring == [entry] + Turned(old(p.ring))
      requires entry.ring == [] && entry.childs == null && entry.parent == p && entry.path == p.path + [entry.name]
      requires |entry.name| < NAME_LEN && NulFree(entry.name) && entry.buf == Stored(entry.name)
      requires old(p.childs) == null ==> entry.siblings == entry
      requires old(p.childs) != null ==>
                 entry.siblings == old(p.childs.siblings) && old(p.childs).siblings == entry
      requires forall e :: e in old(nodes) && e != p ==> e.ring == old(e.ring) && e.childs == old(e.childs)
      requires forall e :: e in old(nodes) && e != old(p.childs) ==> e.siblings == old(e.siblings)
      ensures Valid()
    {
      forall e | e in nodes ensures Ring(e, nodes) && Placed(e, root, nodes) {
        if e != entry {
          if e == p {
            RingGrown(p, entry);
          } else {
            RingKept(e);
          }
          PlacedKept(e);
        } else {
          EmptyRing(entry, nodes);
          NewlyPlaced(entry, root, nodes);
        }
      }
    }

    /** `dcache_lookup`: turns the ring to the entry found, changes nothing
        else, and visits each child at most once. */
    method Lookup(parent: Entry?, name: Name) returns (r: Entry?)
      requires Valid() && At(parent) in nodes && NulFree(name)
      modifies nodes
      ensures Valid()
      ensures forall e :: e in nodes && e != At(parent) ==> e.ring == old(e.ring)
      ensures exists k :: 0 <= k <= |old(At(parent).ring)| && At(parent).ring == old(Rotate(At(parent).ring, k))
      ensures r == null <==> forall c :: c in old(At(parent).ring) ==> c.name != name
      ensures r != null ==> r in nodes && r.name == name && r in old(At(parent).ring) && r == At(parent).ring[0]
      ensures r != null ==> r.path == At(parent).path + [name]
    {
      hide Ring, Placed;
      var p := At(parent);
      assert Rotate(p.ring, 0) == p.ring;
      var found, i := FindChild(p, name);
      if found == null {
        return null;
      }
      RingMembers(p, nodes);
      PlacedName(found, root, nodes);
      p.childs := found;
      p.ring := Rotate(p.ring, i);
      LookupKeeps(p, i);
      r := found;
    }

    /** The search loop: around the ring once. */
    method FindChild(p: Entry, name: Name) returns (found: Entry?, ghost i: nat)
      requires Valid() && p in nodes && NulFree(name)
      ensures found == null ==> forall c :: c in p.ring ==> c.name != name
      ensures found != null ==> i < |p.ring| && found == p.ring[i] && found in nodes && found.name == name
    {
      hide Ring, Placed, NulFree, Stored;
      RingMembers(p, nodes);
      ghost var ring := p.ring;
      i := 0;
      if p.childs == null {
        return null, 0;
      }
      var iter := p.childs;
      while true
        invariant p.ring == ring && Ring(p, nodes) && i < |ring| && iter == ring[i]
        invariant forall j :: 0 <= j < i ==> ring[j].name != name
        decreases |ring| - i
      {
        RingAt(p, nodes, i);
        PlacedName(iter, root, nodes);
        var same := NameMatches(iter.buf, name, iter.name);
        if same {
          return iter, i;
        }
        iter := iter.siblings;
        if iter == p.childs {
          break;
        }
        i := i + 1;
      }
      found := null;
    }

    /** The invariant after the store of `Lookup`. */
    twostate lemma LookupKeeps(p: Entry, new k: nat)
      requires old(Valid()) && nodes == old(nodes) && p in nodes && k < |old(p.ring)|
      requires p.childs == old(p.ring)[k] && p.ring == Rotate(old(p.ring), k)
      requires forall e :: e in nodes && e != p ==> e.ring == old(e.ring) && e.childs == old(e.childs)
      requires forall e :: e in nodes ==> e.siblings == old(e.siblings)
      ensures Valid()
    {
      forall e | e in nodes ensures Ring(e, nodes) && Placed(e, root, nodes) {
        if e == p {
          RingTurned(p, k);
        } else {
          RingKept(e);
        }
        PlacedKept(e);
      }
    }
  }

  /** The ring seen from its second entry. */
  ghost function Turned<T>(s: seq<T>): seq<T> { if s == [] then [] else s[1..] + [s[0]] }

  ghost function Rotate<T>(s: seq<T>, k: nat): seq<T>
    requires k <= |s|
  {
    s[k..] + s[..k]
  }
}
