/** The chained hash table of metaserver/dict.c as chains of key/value pairs,
    and the finite map it should be. */
module DictSpec {
  import opened Machine

  type Key = Name

  datatype Node<V> = Node(key: Key, val: V)

  type Chain<V> = seq<Node<V>>

  /** What an operation answers. */
  datatype Answer<V> = Stored | Refused | Value(v: V) | Missing | Deleted(v: V)

  datatype Op<V> = Put(key: Key, val: V) | Get(key: Key) | Del(key: Key)

  // ---- What the code computes ----

  /** `strncmp(cur->key, key, strlen(key)) == 0`: the stored key starts with
      the key looked for. */
  predicate Hits(stored: Key, key: Key) { key <= stored }

  /** The first pair of the chain that hits, or |chain|. */
  function FirstHit<V>(chain: Chain<V>, key: Key): (i: nat)
    ensures i <= |chain|
    ensures i < |chain| ==> Hits(chain[i].key, key)
    ensures forall j :: 0 <= j < i ==> !Hits(chain[j].key, key)
  {
    if chain == [] || Hits(chain[0].key, key) then 0 else 1 + FirstHit(chain[1..], key)
  }

  /** `dict_find` on the selected chain; the 32-bit member count guards it. */
  function Find<V>(chain: Chain<V>, key: Key): (i: nat)
    ensures i <= |chain|
  {
    if U32(|chain|) > 0 then FirstHit(chain, key) else |chain|
  }

  function PutChain<V>(chain: Chain<V>, key: Key, val: V): (Chain<V>, Answer<V>) {
    if Find(chain, key) < |chain| then (chain, Refused) else ([Node(key, val)] + chain, Stored)
  }

  function GetChain<V>(chain: Chain<V>, key: Key): Answer<V> {
    var i := Find(chain, key);
    if i < |chain| then Value(chain[i].val) else Missing
  }

  function DelChain<V>(chain: Chain<V>, key: Key): (Chain<V>, Answer<V>) {
    var i := Find(chain, key);
    if i < |chain| then (chain[..i] + chain[i + 1..], Deleted(chain[i].val)) else (chain, Missing)
  }

  /** One operation on the chain its key selects. */
  function ChainStep<V>(chain: Chain<V>, op: Op<V>): (Chain<V>, Answer<V>) {
    match op
    case Put(k, v) => PutChain(chain, k, v)
    case Get(k) => (chain, GetChain(chain, k))
    case Del(k) => DelChain(chain, k)
  }

  /** One operation on the table; `idx` selects the chain of a key. */
  function Step<V>(chains: seq<Chain<V>>, idx: Key -> nat, op: Op<V>): (seq<Chain<V>>, Answer<V>)
    requires idx(op.key) < |chains|
  {
    var i := idx(op.key);
    var (c, a) := ChainStep(chains[i], op);
    (chains[i := c], a)
  }

  ghost predicate Indexes(idx: Key -> nat, n: nat) { forall k :: idx(k) < n }

  ghost function Run<V>(chains: seq<Chain<V>>, idx: Key -> nat, ops: seq<Op<V>>): seq<Answer<V>>
    requires Indexes(idx, |chains|)
    decreases ops
  {
    if ops == [] then []
    else
      var (next, a) := Step(chains, idx, ops[0]);
      [a] + Run(next, idx, ops[1..])
  }

  // ---- The finite map ----

  function MapStep<V>(m: map<Key, V>, op: Op<V>): (map<Key, V>, Answer<V>) {
    match op
    case Put(k, v) => if k in m then (m, Refused) else (m[k := v], Stored)
    case Get(k) => (m, if k in m then Value(m[k]) else Missing)
    case Del(k) => if k in m then (m - {k}, Deleted(m[k])) else (m, Missing)
  }

  function MapRun<V>(m: map<Key, V>, ops: seq<Op<V>>): seq<Answer<V>>
    decreases ops
  {
    if ops == [] then []
    else
      var (next, a) := MapStep(m, ops[0]);
      [a] + MapRun(next, ops[1..])
  }

  // ---- When they agree ----

  /** Different keys of the set that select the same chain are not prefixes of
      each other. */
  ghost predicate ClashFree(keys: iset<Key>, idx: Key -> nat) {
    forall k, l :: k in keys && l in keys && idx(k) == idx(l) && k <= l ==> k == l
  }

  ghost predicate Over<V>(ops: seq<Op<V>>, keys: iset<Key>) {
    forall i :: 0 <= i < |ops| ==> ops[i].key in keys
  }

  /** The table holds exactly the map: every key once, in the chain it
      selects, with its value. */
  ghost predicate Holds<V>(chains: seq<Chain<V>>, idx: Key -> nat, m: map<Key, V>) {
    && Indexes(idx, |chains|)
    && (forall i, j :: 0 <= i < |chains| && 0 <= j < |chains[i]| ==>
          idx(chains[i][j].key) == i && chains[i][j].key in m && m[chains[i][j].key] == chains[i][j].val)
    && (forall k :: k in m ==> HasKey(chains[idx(k)], k))
    && (forall i :: 0 <= i < |chains| ==> Distinct(chains[i]))
  }

  predicate HasKey<V>(chain: Chain<V>, k: Key) { exists j :: 0 <= j < |chain| && chain[j].key == k }

  predicate Distinct<V>(chain: Chain<V>) {
    forall j, l :: 0 <= j < l < |chain| ==> chain[j].key != chain[l].key
  }

  /** All stored keys come from the set, and no chain is 2^32 long. */
  ghost predicate Within<V>(chains: seq<Chain<V>>, keys: iset<Key>, bound: nat) {
    forall i :: 0 <= i < |chains| ==>
      |chains[i]| <= bound && forall j :: 0 <= j < |chains[i]| ==> chains[i][j].key in keys
  }

  /** In a chain without clashes, `dict_find` finds exactly the key. */
  lemma {:induction false} FindExact<V>(chain: Chain<V>, key: Key)
    requires |chain| < TWO32 && Distinct(chain)
    requires forall j :: 0 <= j < |chain| && key <= chain[j].key ==> chain[j].key == key
    ensures Find(chain, key) < |chain| ==> chain[Find(chain, key)].key == key
    ensures Find(chain, key) == |chain| ==> !HasKey(chain, key)
  {
    U32Small(|chain|);
  }

  lemma {:induction false} HoldsIndexes<V>(chains: seq<Chain<V>>, idx: Key -> nat, m: map<Key, V>)
    requires Holds(chains, idx, m)
    ensures Indexes(idx, |chains|)
  {
  }

  /** The search succeeds iff the map has the key, and finds its value. */
  lemma {:induction false} FoundIffMapped<V>(chains: seq<Chain<V>>, idx: Key -> nat, m: map<Key, V>, key: Key, keys: iset<Key>, n: nat)
    requires Holds(chains, idx, m) && Within(chains, keys, n) && n < TWO32
    requires ClashFree(keys, idx) && key in keys
    ensures var chain := chains[idx(key)];
            var f := Find(chain, key);
            && (key in m <==> f < |chain|)
            && (f < |chain| ==> chain[f].key == key && m[key] == chain[f].val)
  {
    hide Find, Distinct;
    var chain := chains[idx(key)];
    forall j | 0 <= j < |chain| && key <= chain[j].key ensures chain[j].key == key {
      assert chain[j].key in keys;
    }
    FindExact(chain, key);
  }

  lemma {:induction false} StepWithin<V>(chains: seq<Chain<V>>, idx: Key -> nat, op: Op<V>, keys: iset<Key>, n: nat)
    requires Indexes(idx, |chains|) && Within(chains, keys, n) && op.key in keys
    ensures Within(Step(chains, idx, op).0, keys, n + 1)
  {
    hide Find;
    var i := idx(op.key);
    var c := ChainStep(chains[i], op).0;
    forall j | 0 <= j < |c| ensures c[j].key in keys {
      assert c[j].key != op.key ==> c[j] in chains[i];
    }
  }

  /** One step refines the map step. */
  lemma {:induction false} StepRefines<V>(chains: seq<Chain<V>>, idx: Key -> nat, m: map<Key, V>, op: Op<V>, keys: iset<Key>, n: nat)
    requires Holds(chains, idx, m) && Within(chains, keys, n) && n + 1 < TWO32
    requires ClashFree(keys, idx) && op.key in keys
    ensures var (c, a) := Step(chains, idx, op);
            var (m', a') := MapStep(m, op);
            a == a' && Holds(c, idx, m') && Within(c, keys, n + 1)
  {
    hide Find, Holds, Within, ClashFree;
    HoldsIndexes(chains, idx, m);
    var i := idx(op.key);
    var chain := chains[i];
    var f := Find(chain, op.key);
    assert chains[i := chain] == chains;
    FoundIffMapped(chains, idx, m, op.key, keys, n);
    StepWithin(chains, idx, op, keys, n);
    match op
    case Get(k) =>
    case Put(k, v) =>
      if f == |chain| {
        PutHolds(chains, idx, m, k, v);
      }
    case Del(k) =>
      if f < |chain| {
        DelHolds(chains, idx, m, k, f);
      }
  }

  lemma {:induction false} PutHolds<V>(chains: seq<Chain<V>>, idx: Key -> nat, m: map<Key, V>, k: Key, v: V)
    requires Holds(chains, idx, m) && k !in m
    ensures Holds(chains[idx(k) := [Node(k, v)] + chains[idx(k)]], idx, m[k := v])
  {
    hide HasKey, Distinct;
    var i := idx(k);
    var chain, m' := [Node(k, v)] + chains[i], m[k := v];
    var next := chains[i := chain];
    forall j | 0 <= j < |chains[i]| ensures chains[i][j].key != k {
      assert chains[i][j].key in m;
    }
    WithNode(chains[i], k, v);
    forall l | l in m' ensures HasKey(next[idx(l)], l) {
      assert l != k ==> HasKey(chains[idx(l)], l);
    }
    forall j | 0 <= j < |chain|
      ensures idx(chain[j].key) == i && chain[j].key in m' && m'[chain[j].key] == chain[j].val
    {
      assert j > 0 ==> chain[j] in chains[i];
    }
  }

  /** Linking a node in front adds its key and no other. */
  lemma {:induction false} WithNode<V>(chain: Chain<V>, k: Key, v: V)
    requires Distinct(chain) && forall j :: 0 <= j < |chain| ==> chain[j].key != k
    ensures var more := [Node(k, v)] + chain;
            && Distinct(more) && HasKey(more, k)
            && (forall l :: HasKey(chain, l) ==> HasKey(more, l))
            && (forall j :: 0 < j < |more| ==> more[j] in chain)
  {
    var more := [Node(k, v)] + chain;
    assert more[0].key == k;
    forall l | HasKey(chain, l) ensures HasKey(more, l) {
      var j :| 0 <= j < |chain| && chain[j].key == l;
      assert more[j + 1].key == l;
    }
    forall j | 0 < j < |more| ensures more[j] in chain {
      assert more[j] == chain[j - 1];
    }
  }

  lemma {:induction false} DelHolds<V>(chains: seq<Chain<V>>, idx: Key -> nat, m: map<Key, V>, k: Key, f: nat)
    requires Holds(chains, idx, m) && f < |chains[idx(k)]| && chains[idx(k)][f].key == k
    ensures k in m && m[k] == chains[idx(k)][f].val
    ensures Holds(chains[idx(k) := chains[idx(k)][..f] + chains[idx(k)][f + 1..]], idx, m - {k})
  {
    hide HasKey, Distinct;
    var i := idx(k);
    var old_, m' := chains[i], m - {k};
    var chain := old_[..f] + old_[f + 1..];
    var next := chains[i := chain];
    WithoutNode(old_, f);
    forall l | l in m' ensures HasKey(next[idx(l)], l) {
      assert HasKey(chains[idx(l)], l);
    }
    forall j | 0 <= j < |chain|
      ensures idx(chain[j].key) == i && chain[j].key in m' && m'[chain[j].key] == chain[j].val
    {
      assert chain[j] in old_;
    }
  }

  /** Unlinking node `f` removes its key and no other. */
  lemma {:induction false} WithoutNode<V>(chain: Chain<V>, f: nat)
    requires f < |chain| && Distinct(chain)
    ensures var rest := chain[..f] + chain[f + 1..];
            && Distinct(rest)
            && (forall l :: HasKey(chain, l) && l != chain[f].key ==> HasKey(rest, l))
            && (forall j :: 0 <= j < |rest| ==> rest[j] in chain && rest[j].key != chain[f].key)
  {
    var rest := chain[..f] + chain[f + 1..];
    forall l | HasKey(chain, l) && l != chain[f].key ensures HasKey(rest, l) {
      var j :| 0 <= j < |chain| && chain[j].key == l;
      assert rest[if j < f then j else j - 1].key == l;
    }
    forall j | 0 <= j < |rest| ensures rest[j] in chain && rest[j].key != chain[f].key {
      assert rest[j] == chain[if j < f then j else j + 1];
    }
  }

  // ---- Whole runs ----

  /** Every run over a clash-free key set answers as the map does. */
  lemma {:induction false} RunRefines<V>(chains: seq<Chain<V>>, idx: Key -> nat, m: map<Key, V>, ops: seq<Op<V>>, keys: iset<Key>, n: nat)
    requires Holds(chains, idx, m) && Within(chains, keys, n) && n + |ops| < TWO32
    requires ClashFree(keys, idx) && Over(ops, keys)
    ensures Run(chains, idx, ops) == MapRun(m, ops)
    decreases ops
  {
    if ops != [] {
      StepRefines(chains, idx, m, ops[0], keys, n);
      hide Holds, Within, ClashFree, Step, MapStep;
      RunRefines(Step(chains, idx, ops[0]).0, idx, MapStep(m, ops[0]).0, ops[1..], keys, n + 1);
    }
  }

  function Empty<V>(n: nat): (c: seq<Chain<V>>)
    ensures |c| == n
  {
    seq(n, _ => [])
  }

  /** The failing case: with a longer key stored, a proper prefix of it that
      selects the same chain cannot be stored. */
  lemma {:induction false} PrefixRefused<V>(n: nat, idx: Key -> nat, k: Key, l: Key, v: V)
    requires Indexes(idx, n) && idx(k) == idx(l) && k <= l && k != l
    ensures Run(Empty(n), idx, [Put(l, v), Put(k, v)]) == [Stored, Refused]
    ensures MapRun(map[], [Put(l, v), Put(k, v)]) == [Stored, Stored]
  {
    var ops := [Put(l, v), Put(k, v)];
    var c0 := Empty<V>(n);
    var c1 := Step(c0, idx, ops[0]).0;
    assert ops[1..] == [Put(k, v)] && ops[1..][1..] == [];
    assert c1[idx(l)] == [Node(l, v)];
    assert FirstHit([Node(l, v)], k) == 0;
    assert Step(c1, idx, Put(k, v)).1 == Refused;
    assert Run(c1, idx, [Put(k, v)]) == [Refused] + Run(Step(c1, idx, Put(k, v)).0, idx, []);
    assert [Put(k, v)][1..] == [];
    assert MapRun(map[l := v], [Put(k, v)]) == [Stored] + [];
  }

  ghost predicate AnswersAsMap<V>(n: nat, idx: Key -> nat, ops: seq<Op<V>>)
    requires Indexes(idx, n)
  {
    Run(Empty(n), idx, ops) == MapRun(map[], ops)
  }

  /** The dictionary is a map on a set of keys, for every run of puts, gets and
      deletes over it, if and only if no key of the set is a proper prefix of
      another one in the same chain. */
  lemma {:induction false} RefinesMapExactly<V(!new)>(n: nat, idx: Key -> nat, keys: iset<Key>, v: V)
    requires Indexes(idx, n)
    ensures (forall ops: seq<Op<V>> :: Over(ops, keys) && |ops| < TWO32 ==> AnswersAsMap(n, idx, ops))
            <==> ClashFree(keys, idx)
  {
    if ClashFree(keys, idx) {
      forall ops: seq<Op<V>> | Over(ops, keys) && |ops| < TWO32 ensures AnswersAsMap(n, idx, ops) {
        RunRefines(Empty(n), idx, map[], ops, keys, 0);
      }
    } else {
      var k, l :| k in keys && l in keys && idx(k) == idx(l) && k <= l && k != l;
      PrefixRefused(n, idx, k, l, v);
      var ops := [Put(l, v), Put(k, v)];
      assert Over(ops, keys) && !AnswersAsMap(n, idx, ops);
    }
  }

  // ---- Counting ----

  /** The number of stored pairs. */
  function Total<V>(chains: seq<Chain<V>>): nat {
    if chains == [] then 0 else |chains[0]| + Total(chains[1..])
  }

  lemma {:induction false} TotalUpdate<V>(chains: seq<Chain<V>>, i: nat, c: Chain<V>)
    requires i < |chains|
    ensures Total(chains[i := c]) == Total(chains) - |chains[i]| + |c|
  {
    if i > 0 {
      assert chains[i := c][1..] == chains[1..][i - 1 := c];
      TotalUpdate(chains[1..], i - 1, c);
    } else {
      assert chains[0 := c][1..] == chains[1..];
    }
  }

  /** An accepted put adds one pair, a delete that finds its key removes one,
      and nothing else changes the count. */
  lemma {:induction false} StepCounts<V>(chains: seq<Chain<V>>, idx: Key -> nat, op: Op<V>)
    requires idx(op.key) < |chains|
    ensures var (c, a) := Step(chains, idx, op);
            && |c| == |chains|
            && Total(c) == Total(chains) + (if a.Stored? then 1 else if a.Deleted? then -1 else 0)
            && forall i :: 0 <= i < |chains| && i != idx(op.key) ==> c[i] == chains[i]
  {
    var i := idx(op.key);
    TotalUpdate(chains, i, ChainStep(chains[i], op).0);
  }
}
