/** The hash table of metaserver/dict.c on the heap: an array of chain heads,
    linked pairs, and 32-bit counters. */
module Dict {
  import opened Machine
  import opened DictSpec
  import opened JumpHash

  /** `dict_data_pair`. */
  class Pair<V> {
    var next: Pair?<V>
    const key: Key
    const val: V
    /** The chain this pair belongs to. */
    ghost const home: nat

    constructor (key: Key, val: V, ghost home: nat)
      ensures this.key == key && this.val == val && this.home == home && this.next == null
    {
      this.key, this.val, this.next, this.home := key, val, null, home;
    }
  }

  ghost function After<V>(chain: seq<Pair<V>>, j: nat): Pair?<V> {
    if j + 1 < |chain| then chain[j + 1] else null
  }

  /** `chain` is what following `next` from `head` visits. */
  ghost predicate Linked<V>(head: Pair?<V>, chain: seq<Pair<V>>, home: nat)
    reads chain
  {
    && (if chain == [] then head == null else head == chain[0])
    && (forall j :: 0 <= j < |chain| ==> chain[j].home == home)
    && (forall j :: 0 <= j < |chain| ==> chain[j].next == After(chain, j))
    && (forall j, l :: 0 <= j < l < |chain| ==> chain[j] != chain[l])
  }

  lemma {:induction false} LinkAt<V>(head: Pair?<V>, chain: seq<Pair<V>>, home: nat, j: nat)
    requires Linked(head, chain, home) && j < |chain|
    ensures chain[j].next == if j + 1 < |chain| then chain[j + 1] else null
    ensures chain[j].home == home && head == chain[0]
    ensures j > 0 ==> chain[j - 1] != chain[j]
  {
  }

  ghost function Contents<V>(chain: seq<Pair<V>>): Chain<V> {
    seq(|chain|, j requires 0 <= j < |chain| => Node(chain[j].key, chain[j].val))
  }

  ghost function AllContents<V>(chains: seq<seq<Pair<V>>>): (v: seq<Chain<V>>)
    ensures |v| == |chains|
    ensures forall i :: 0 <= i < |chains| ==> v[i] == Contents(chains[i])
  {
    seq(|chains|, i requires 0 <= i < |chains| => Contents(chains[i]))
  }

  lemma {:induction false} AllContentsUpdate<V>(chains: seq<seq<Pair<V>>>, i: nat, c: seq<Pair<V>>)
    requires i < |chains|
    ensures AllContents(chains[i := c]) == AllContents(chains)[i := Contents(c)]
  {
  }

  /** The search loop of `dict_find` reads the chain front to back. */
  lemma {:induction false} HitStep<V>(chain: Chain<V>, key: Key, j: nat)
    requires j < |chain| && FirstHit(chain, key) == j + FirstHit(chain[j..], key)
    ensures Hits(chain[j].key, key) ==> FirstHit(chain, key) == j
    ensures !Hits(chain[j].key, key) ==> FirstHit(chain, key) == (j + 1) + FirstHit(chain[j + 1..], key)
  {
    assert chain[j..][0] == chain[j] && chain[j..][1..] == chain[j + 1..];
  }

  class Dict<V> {
    const maxCount: nat
    const rnd: Rounding
    const hashFn: Key -> nat
    const memberCount: array<nat>
    const members: array<Pair?<V>>
    var count: nat
    ghost var chains: seq<seq<Pair<V>>>

    /** At least one bucket, 32-bit sizes and hashes. */
    ghost predicate Configured() {
      && IsRounding(rnd) && 1 <= maxCount < TWO32
      && (forall k :: hashFn(k) < TWO32)
    }

    /** The chain a key selects. */
    ghost function Index(key: Key): (i: nat)
      requires Configured()
      ensures i < maxCount
    {
      Bucket(rnd, hashFn(key), maxCount)
    }

    ghost function IndexFn(): Key -> nat
      requires Configured()
    {
      k => Index(k)
    }

    /** The table as chains of key/value pairs. */
    ghost function View(): seq<Chain<V>>
      reads this`chains
    {
      AllContents(chains)
    }

    ghost predicate Valid()
      reads this, memberCount, members, set i, j | 0 <= i < |chains| && 0 <= j < |chains[i]| :: chains[i][j]
    {
      && Configured()
      && members.Length == memberCount.Length == |chains| == maxCount
      && (forall i :: 0 <= i < maxCount ==> Linked(members[i], chains[i], i))
      && (forall i :: 0 <= i < maxCount ==> memberCount[i] == U32(|chains[i]|))
      && count == U32(Total(View()))
    }

    /** `dict_init`. */
    constructor (maxCount: nat, hashFn: Key -> nat, rnd: Rounding)
      requires IsRounding(rnd) && 1 <= maxCount < TWO32 && forall k :: hashFn(k) < TWO32
      ensures Valid() && fresh(members) && fresh(memberCount)
      ensures this.maxCount == maxCount && this.hashFn == hashFn && this.rnd == rnd
      ensures View() == Empty(maxCount) && count == 0
    {
      this.maxCount, this.hashFn, this.rnd := maxCount, hashFn, rnd;
      members := new Pair?<V>[maxCount](_ => null);
      memberCount := new nat[maxCount](_ => 0);
      count := 0;
      chains := seq(maxCount, _ => []);
      new;
      EmptyTotal<V>(maxCount);
      assert View() == Empty(maxCount);
    }

    /** `dict_find`: the first pair of the selected chain whose key starts with
        the key looked for, and the pair before it. */
    method Find(key: Key) returns (data: Pair?<V>, index: nat, prev: Pair?<V>, ghost j: nat)
      requires Valid()
      ensures index == Index(key) && |View()| == maxCount
      ensures j == DictSpec.Find(View()[index], key) <= |chains[index]|
      ensures data == if j < |chains[index]| then chains[index][j] else null
      ensures j < |chains[index]| ==> prev == if j == 0 then null else chains[index][j - 1]
    {
      hide IsRounding, Bucket, Total, FirstHit;
      index := JumpConsistent(rnd, hashFn(key), maxCount);
      data, prev := null, null;
      ghost var chain := chains[index];
      ghost var view := Contents(chain);
      j := |chain|;
      if memberCount[index] > 0 {
        var cur := members[index];
        j := 0;
        assert view[0..] == view;
        while cur != null
          invariant Linked(members[index], chain, index)
          invariant j <= |chain| && cur == (if j < |chain| then chain[j] else null)
          invariant prev == if j == 0 then null else chain[j - 1]
          invariant FirstHit(view, key) == j + FirstHit(view[j..], key)
          decreases |chain| - j
        {
          HitStep(view, key, j);
          LinkAt(members[index], chain, index, j);
          if Hits(cur.key, key) {
            data := cur;
            break;
          }
          prev := cur;
          cur := cur.next;
          j := j + 1;
        }
        assert data == null ==> FirstHit(view[|chain|..], key) == 0 by { NoHit<V>(view, key); }
      }
    }

    /** The pairs of all chains. */
    ghost function Pairs(): set<Pair<V>>
      reads this`chains
    {
      set i, j | 0 <= i < |chains| && 0 <= j < |chains[i]| :: chains[i][j]
    }

    /** A chain that was not touched. */
    twostate lemma ChainKept(new i: nat)
      requires i < old(|chains|) && i < |chains| && i < members.Length
      requires old(Linked(members[i], chains[i], i))
      requires chains[i] == old(chains[i]) && members[i] == old(members[i])
      requires forall j :: 0 <= j < |chains[i]| ==> chains[i][j].next == old(chains[i][j].next)
      ensures Linked(members[i], chains[i], i)
    {
    }

    /** `dict_put`: refuses a key that hits, otherwise links a new pair in
        front of its chain. */
    method Put(key: Key, val: V) returns (ok: bool)
      requires Valid()
      modifies this`count, this`chains, members, memberCount
      ensures Valid() && fresh(Pairs() - old(Pairs()))
      ensures var (view, answer) := Step(old(View()), IndexFn(), Op.Put(key, val));
              View() == view && (if ok then answer == Stored else answer == Refused)
    {
      hide IsRounding, Bucket, Index, Total, FirstHit, DictSpec.Find, U32, Linked, Step, Contents, AllContents;
      var data, index, prev;
      ghost var j;
      data, index, prev, j := Find(key);
      PutStep(View(), IndexFn(), key, val);
      ContentsLength(chains, index);
      if data != null {
        return false;
      }
      var entry := new Pair(key, val, index);
      if members[index] == null {
        members[index] := entry;
      } else {
        entry.next := members[index];
        members[index] := entry;
      }
      memberCount[index] := U32(memberCount[index] + 1);
      count := U32(count + 1);
      chains := chains[index := [entry] + chains[index]];
      PutKeeps(index, entry);
      ok := true;
    }

    /** The invariant, and the new view, after the stores of `Put`. */
    twostate lemma PutKeeps(new index: nat, new entry: Pair<V>)
      requires old(Valid()) && index < maxCount
      requires chains == old(chains)[index := [entry] + old(chains)[index]]
      requires members[index] == entry && entry.next == old(members[index]) && entry.home == index && fresh(entry)
      requires forall i :: 0 <= i < maxCount && i != index ==> members[i] == old(members[i])
      requires forall i :: 0 <= i < maxCount && i != index ==> memberCount[i] == old(memberCount[i])
      requires memberCount[index] == U32(old(memberCount[index]) + 1) && count == U32(old(count) + 1)
      requires forall i, j :: 0 <= i < old(|chains|) && 0 <= j < |old(chains)[i]| ==>
                 old(chains)[i][j].next == old(chains[i][j].next)
      ensures Valid()
      ensures View() == old(View())[index := [Node(entry.key, entry.val)] + old(View())[index]]
    {
      hide IsRounding, U32, Linked;
      var c, view := old(chains)[index], old(View());
      PutLinks(index, entry);
      AllContentsUpdate(old(chains), index, [entry] + c);
      assert Contents([entry] + c) == [Node(entry.key, entry.val)] + Contents(c);
      TotalUpdate(view, index, [Node(entry.key, entry.val)] + view[index]);
      CountUp(|c|);
      CountUp(Total(view));
      assert forall i :: 0 <= i < maxCount && i != index ==> chains[i] == old(chains)[i];
    }

    twostate lemma PutLinks(new index: nat, new entry: Pair<V>)
      requires index < members.Length == old(|chains|)
      requires forall i :: 0 <= i < members.Length ==> old(Linked(members[i], chains[i], i))
      requires chains == old(chains)[index := [entry] + old(chains)[index]]
      requires members[index] == entry && entry.next == old(members[index]) && entry.home == index && fresh(entry)
      requires forall i :: 0 <= i < members.Length && i != index ==> members[i] == old(members[i])
      requires forall i, j :: 0 <= i < old(|chains|) && 0 <= j < |old(chains)[i]| ==>
                 old(chains)[i][j].next == old(chains[i][j].next)
      ensures forall i :: 0 <= i < members.Length ==> Linked(members[i], chains[i], i)
    {
      forall i | 0 <= i < members.Length ensures Linked(members[i], chains[i], i) {
        if i != index {
          ChainKept(i);
        } else {
          FrontLinked(index, entry);
        }
      }
    }

    /** The chain that received `entry` in front. */
    twostate lemma FrontLinked(new i: nat, new entry: Pair<V>)
      requires i < members.Length && i < old(|chains|) && i < |chains|
      requires old(Linked(members[i], chains[i], i))
      requires chains[i] == [entry] + old(chains)[i]
      requires members[i] == entry && entry.next == old(members[i]) && entry.home == i && fresh(entry)
      requires forall j :: 0 <= j < |old(chains)[i]| ==> old(chains)[i][j].next == old(chains[i][j].next)
      ensures Linked(members[i], chains[i], i)
    {
      var c, d := old(chains)[i], chains[i];
      forall l | 0 <= l < |d|
        ensures d[l].home == i && d[l].next == if l + 1 < |d| then d[l + 1] else null
      {
        if l > 0 {
          assert d[l] == c[l - 1];
          assert old(c[l - 1].next) == After(c, l - 1);
        }
      }
      forall j, l | 0 <= j < l < |d| ensures d[j] != d[l] {
        assert d[l] == c[l - 1];
        if j > 0 {
          assert d[j] == c[j - 1];
        }
      }
    }

    /** `dict_get`. */
    method Get(key: Key) returns (r: Option<V>)
      requires Valid()
      ensures Step(View(), IndexFn(), Op.Get(key)).0 == View()
      ensures match Step(View(), IndexFn(), Op.Get(key)).1
              case Value(v) => r == Some(v)
              case _ => r == None
    {
      hide IsRounding, Bucket, Index, Total, FirstHit, DictSpec.Find, U32, Linked, Step;
      var data, index, prev;
      ghost var j;
      data, index, prev, j := Find(key);
      GetStep(View(), IndexFn(), key);
      ContentsLength(chains, index);
      if data != null {
        r := Some(data.val);
      } else {
        r := None;
      }
    }

    /** `dict_del`: unlinks the pair found and hands its value to the free
        function. */
    method Del(key: Key) returns (freed: Option<V>)
      requires Valid()
      modifies this`count, this`chains, members, memberCount, Pairs()
      ensures Valid() && Pairs() <= old(Pairs())
      ensures var (view, answer) := Step(old(View()), IndexFn(), Op.Del(key));
              && View() == view
              && match answer
                 case Deleted(v) => freed == Some(v)
                 case _ => freed == None
    {
      hide IsRounding, Bucket, Index, Total, FirstHit, DictSpec.Find, U32, Linked, Step, AllContents;
      var data, index, prev;
      ghost var j;
      data, index, prev, j := Find(key);
      DelStep(View(), IndexFn(), key);
      ContentsLength(chains, index);
      if data == null {
        return None;
      }
      Unlink(data, index, prev, j);
      freed := Some(data.val);
    }

    /** The stores of `dict_del` for the pair at position `j` of its chain. */
    method Unlink(data: Pair<V>, index: nat, prev: Pair?<V>, ghost j: nat)
      requires Valid() && index < maxCount && j < |chains[index]| && data == chains[index][j]
      requires prev == if j == 0 then null else chains[index][j - 1]
      modifies this`count, this`chains, members, memberCount, Pairs()
      ensures Valid() && Pairs() <= old(Pairs())
      ensures View() == old(View())[index := old(View())[index][..j] + old(View())[index][j + 1..]]
    {
      hide IsRounding, Bucket, Index, Total, U32, Linked, AllContents, Contents;
      LinkAt(members[index], chains[index], index, j);
      ghost var c := chains[index];
      assert forall l :: 0 <= l < |c| ==> c[l] in Pairs();
      if prev == null {
        members[index] := data.next;
      } else {
        prev.next := data.next;
      }
      data.next := null;
      memberCount[index] := U32(memberCount[index] as int - 1);
      count := U32(count as int - 1);
      chains := chains[index := c[..j] + c[j + 1..]];
      DelKeeps(index, j);
    }

    /** The invariant, and the new view, after the stores of `Del`. */
    twostate lemma DelKeeps(new index: nat, new j: nat)
      requires old(Valid()) && index < maxCount && j < |old(chains)[index]|
      requires var c := old(chains)[index];
               && chains == old(chains)[index := c[..j] + c[j + 1..]]
               && (if j == 0 then members[index] == After(c, 0)
                   else members[index] == old(members[index]) && c[j - 1].next == After(c, j))
      requires forall i :: 0 <= i < maxCount && i != index ==> members[i] == old(members[i])
      requires forall i :: 0 <= i < maxCount && i != index ==> memberCount[i] == old(memberCount[i])
      requires memberCount[index] == U32(old(memberCount[index]) as int - 1) && count == U32(old(count) as int - 1)
      requires forall x :: x in old(Pairs()) && x != old(chains)[index][j] ==>
                 x.next == old(x.next) || (j > 0 && x == old(chains)[index][j - 1])
      ensures Valid() && Pairs() <= old(Pairs())
      ensures View() == old(View())[index := old(View())[index][..j] + old(View())[index][j + 1..]]
    {
      hide IsRounding, U32, Linked;
      var c, view := old(chains)[index], old(View());
      var d := c[..j] + c[j + 1..];
      forall i | 0 <= i < maxCount ensures Linked(members[i], chains[i], i) {
        if i == index {
          SameChain(index);
          GapLinked(index, j);
        } else {
          OtherChain(i, index);
          ChainKept(i);
        }
      }
      AllContentsUpdate(old(chains), index, d);
      assert Contents(d) == Contents(c)[..j] + Contents(c)[j + 1..];
      TotalUpdate(view, index, Contents(d));
      CountDown(|c|);
      CountDown(Total(view));
      assert forall i :: 0 <= i < maxCount && i != index ==> chains[i] == old(chains)[i];
    }

    twostate lemma SameChain(new i: nat)
      requires i < |old(chains)| <= members.Length && old(Linked(members[i], chains[i], i))
      ensures forall l :: 0 <= l < |old(chains)[i]| ==> old(chains)[i][l] in old(Pairs())
      ensures forall k, l :: 0 <= k < l < |old(chains)[i]| ==> old(chains)[i][k] != old(chains)[i][l]
    {
    }

    /** Pairs of different chains are different. */
    twostate lemma OtherChain(new i: nat, new index: nat)
      requires i < |old(chains)| && index < |old(chains)| && i != index && old(|chains|) <= members.Length
      requires old(Linked(members[i], chains[i], i)) && old(Linked(members[index], chains[index], index))
      ensures forall l, j :: 0 <= l < |old(chains)[i]| && 0 <= j < |old(chains)[index]| ==>
                old(chains)[i][l] != old(chains)[index][j] && old(chains)[i][l] in old(Pairs())
    {
    }

    /** The chain that lost the pair at `j`. */
    twostate lemma GapLinked(new i: nat, new j: nat)
      requires i < members.Length && i < old(|chains|) && i < |chains| && j < |old(chains)[i]|
      requires old(Linked(members[i], chains[i], i))
      requires var c := old(chains)[i];
               && chains[i] == c[..j] + c[j + 1..]
               && (if j == 0 then members[i] == After(c, 0)
                   else members[i] == old(members[i]) && c[j - 1].next == After(c, j))
               && forall l :: 0 <= l < |c| && l != j && l != j - 1 ==> c[l].next == old(c[l].next)
      ensures Linked(members[i], chains[i], i)
    {
      var c, d := old(chains)[i], chains[i];
      forall l | 0 <= l < |d| ensures d[l].home == i && d[l].next == After(d, l) {
        var k := if l < j then l else l + 1;
        assert d[l] == c[k];
        assert old(c[k].next) == After(c, k);
      }
      GapDistinct(c, j);
    }

    static lemma {:induction false} GapDistinct<T>(c: seq<T>, j: nat)
      requires j < |c| && forall k, l :: 0 <= k < l < |c| ==> c[k] != c[l]
      ensures var d := c[..j] + c[j + 1..];
              forall k, l :: 0 <= k < l < |d| ==> d[k] != d[l]
    {
    }

    /** `dict_deinit`: hands every stored value to the free function, chain by
        chain, and counts everything down to zero. */
    method Deinit() returns (freed: seq<V>)
      requires Valid() && Total(View()) < TWO32
      modifies this`count, memberCount
      ensures freed == AllValues(View())
      ensures count == 0 && forall i :: 0 <= i < maxCount ==> memberCount[i] == 0
    {
      hide IsRounding, Linked, U32, Total, AllContents, Contents, AllValues, Values;
      ghost var view := View();
      freed := [];
      var i := 0;
      assert view[0..] == view && [] + AllValues(view) == AllValues(view);
      U32Small(Total(view));
      while i < maxCount
        invariant 0 <= i <= maxCount && chains == old(chains) && |view| == maxCount
        invariant forall k :: 0 <= k < i ==> memberCount[k] == 0
        invariant forall k :: i <= k < maxCount ==> memberCount[k] == old(memberCount[k])
        invariant count == Total(view[i..]) <= Total(view)
        invariant AllValues(view) == freed + AllValues(view[i..])
      {
        SuffixStep(view, i);
        ContentsLength(chains, i);
        U32Small(|chains[i]|);
        if memberCount[i] > 0 {
          var values := FreeChain(i);
          assert freed + (values + AllValues(view[i + 1..])) == (freed + values) + AllValues(view[i + 1..]);
          freed := freed + values;
        } else {
          assert freed + ([] + AllValues(view[i + 1..])) == freed + AllValues(view[i + 1..]);
        }
        i := i + 1;
      }
      NoMoreChains(view);
      assert freed + [] == freed;
    }

    /** The inner loop of `dict_deinit`. */
    method FreeChain(i: nat) returns (freed: seq<V>)
      requires i < maxCount == |chains| == members.Length == memberCount.Length
      requires Linked(members[i], chains[i], i)
      requires memberCount[i] == |chains[i]| < TWO32 && |chains[i]| <= count < TWO32
      modifies this`count, memberCount
      ensures freed == Values(View()[i])
      ensures count == old(count) - |chains[i]| && memberCount[i] == 0
      ensures forall k :: 0 <= k < maxCount && k != i ==> memberCount[k] == old(memberCount[k])
    {
      hide U32, Linked;
      ghost var c, vals := chains[i], Values(Contents(chains[i]));
      HeadOf(members[i], c, i);
      freed := [];
      var dp := members[i];
      ghost var j := 0;
      while dp != null
        invariant j <= |c| && dp == (if j < |c| then c[j] else null) && Linked(members[i], c, i)
        invariant memberCount[i] == |c| - j && count == old(count) - j
        invariant forall k :: 0 <= k < maxCount && k != i ==> memberCount[k] == old(memberCount[k])
        invariant freed == vals[..j]
        decreases |c| - j
      {
        LinkAt(members[i], c, i, j);
        var next := dp.next;
        freed := freed + [dp.val];
        assert freed == vals[..j + 1];
        dp := next;
        U32Small(memberCount[i] - 1);
        U32Small(count - 1);
        memberCount[i] := U32(memberCount[i] as int - 1);
        count := U32(count as int - 1);
        j := j + 1;
      }
    }
  }

  lemma {:induction false} HeadOf<V>(head: Pair?<V>, chain: seq<Pair<V>>, home: nat)
    requires Linked(head, chain, home)
    ensures head == if chain == [] then null else chain[0]
  {
  }

  ghost function Values<V>(chain: Chain<V>): (s: seq<V>)
    ensures |s| == |chain|
    ensures forall j :: 0 <= j < |chain| ==> s[j] == chain[j].val
  {
    seq(|chain|, j requires 0 <= j < |chain| => chain[j].val)
  }

  /** Every stored value once, chain by chain. */
  ghost function AllValues<V>(view: seq<Chain<V>>): seq<V> {
    if view == [] then [] else Values(view[0]) + AllValues(view[1..])
  }

  lemma {:induction false} NoMoreChains<V>(view: seq<Chain<V>>)
    ensures Total(view[|view|..]) == 0 && AllValues(view[|view|..]) == []
  {
  }

  lemma {:induction false} SuffixStep<V>(view: seq<Chain<V>>, i: nat)
    requires i < |view|
    ensures Total(view[i..]) == |view[i]| + Total(view[i + 1..])
    ensures AllValues(view[i..]) == Values(view[i]) + AllValues(view[i + 1..])
    ensures view[i] == [] ==> Values(view[i]) == []
  {
    assert view[i..][0] == view[i] && view[i..][1..] == view[i + 1..];
  }

  lemma {:induction false} GetStep<V>(view: seq<Chain<V>>, idx: Key -> nat, key: Key)
    requires idx(key) < |view|
    ensures var i := idx(key);
            var f := DictSpec.Find(view[i], key);
            Step(view, idx, Op.Get(key)) == (view, if f < |view[i]| then Value(view[i][f].val) else Missing)
  {
    hide DictSpec.Find;
    assert view[idx(key) := view[idx(key)]] == view;
  }

  lemma {:induction false} DelStep<V>(view: seq<Chain<V>>, idx: Key -> nat, key: Key)
    requires idx(key) < |view|
    ensures var i := idx(key);
            var f := DictSpec.Find(view[i], key);
            Step(view, idx, Op.Del(key)) ==
            if f < |view[i]| then (view[i := view[i][..f] + view[i][f + 1..]], Deleted(view[i][f].val))
            else (view, Missing)
  {
    hide DictSpec.Find;
    assert view[idx(key) := view[idx(key)]] == view;
  }

  lemma {:induction false} CountDown(n: nat)
    requires n > 0
    ensures U32(U32(n) - 1) == U32(n - 1)
  {
  }

  lemma {:induction false} ContentsLength<V>(chains: seq<seq<Pair<V>>>, i: nat)
    requires i < |chains|
    ensures |AllContents(chains)[i]| == |chains[i]|
  {
  }

  lemma {:induction false} PutStep<V>(view: seq<Chain<V>>, idx: Key -> nat, key: Key, val: V)
    requires idx(key) < |view|
    ensures var i := idx(key);
            Step(view, idx, Op.Put(key, val)) ==
            if DictSpec.Find(view[i], key) < |view[i]| then (view, Refused)
            else (view[i := [Node(key, val)] + view[i]], Stored)
  {
    hide DictSpec.Find;
    assert view[idx(key) := view[idx(key)]] == view;
  }

  lemma {:induction false} CountUp(n: nat)
    ensures U32(U32(n) + 1) == U32(n + 1)
  {
  }

  lemma {:induction false} NoHit<V>(view: Chain<V>, key: Key)
    ensures FirstHit(view[|view|..], key) == 0
  {
  }

  lemma {:induction false} EmptyTotal<V>(n: nat)
    ensures Total(Empty<V>(n)) == 0
  {
    if n > 0 {
      assert Empty<V>(n)[1..] == Empty<V>(n - 1);
      EmptyTotal<V>(n - 1);
    }
  }
}
