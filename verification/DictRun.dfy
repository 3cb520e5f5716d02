/** Whole runs of puts, gets and deletes on a table of metaserver/dict.c. */
module DictRun {
  import opened Machine
  import opened DictSpec
  import opened JumpHash
  import D = Dict

  /** The chain that a key selects in a table of `n` buckets. */
  ghost function ChainOf(rnd: Rounding, hashFn: Key -> nat, n: nat): Key -> nat
    requires IsRounding(rnd) && 1 <= n < TWO32 && forall k :: hashFn(k) < TWO32
  {
    k => Bucket(rnd, hashFn(k), n)
  }

  /** Only the chain of the key itself matters to an operation. */
  lemma {:induction false} SameChainSameStep<V>(chains: seq<Chain<V>>, f: Key -> nat, g: Key -> nat, op: Op<V>)
    requires f(op.key) == g(op.key) < |chains|
    ensures Step(chains, f, op) == Step(chains, g, op)
  {
    hide ChainStep;
  }

  lemma {:induction false} RunUnfold<V>(chains: seq<Chain<V>>, idx: Key -> nat, ops: seq<Op<V>>, i: nat)
    requires Indexes(idx, |chains|) && i < |ops|
    ensures var (next, a) := Step(chains, idx, ops[i]);
            |next| == |chains| && Run(chains, idx, ops[i..]) == [a] + Run(next, idx, ops[i + 1..])
  {
    hide ChainStep;
    assert ops[i..][0] == ops[i] && ops[i..][1..] == ops[i + 1..];
  }

  lemma {:induction false} AnswerKinds<V>(chains: seq<Chain<V>>, idx: Key -> nat, op: Op<V>)
    requires idx(op.key) < |chains|
    ensures var a := Step(chains, idx, op).1;
            && (op.Get? ==> a.Value? || a.Missing?)
            && (op.Del? ==> a.Deleted? || a.Missing?)
  {
    hide Find;
  }

  /** One operation on the heap, answered as the specification answers. */
  method Do<V>(d: D.Dict<V>, op: Op<V>) returns (a: Answer<V>)
    requires d.Valid()
    modifies d`count, d`chains, d.members, d.memberCount, d.Pairs()
    ensures d.Valid() && fresh(d.Pairs() - old(d.Pairs()))
    ensures (d.View(), a) == Step(old(d.View()), d.IndexFn(), op)
  {
    hide Step, D.AllContents, D.Linked, Total, U32, IsRounding, Bucket;
    AnswerKinds(d.View(), d.IndexFn(), op);
    match op
    case Put(k, v) =>
      var ok := d.Put(k, v);
      a := if ok then Stored else Refused;
    case Get(k) =>
      var r := d.Get(k);
      a := if r.Some? then Value(r.value) else Missing;
    case Del(k) =>
      var r := d.Del(k);
      a := if r.Some? then Deleted(r.value) else Missing;
  }

  ghost function KeysOf<V>(ops: seq<Op<V>>): iset<Key> { iset i | 0 <= i < |ops| :: ops[i].key }

  /** From `dict_init` on, any run of fewer than 2^32 operations answers as a
      finite map does, if no key of the run is a proper prefix of another one
      in its chain; any run at all answers as the chains do. */
  method RunOps<V>(n: nat, hashFn: Key -> nat, rnd: Rounding, ops: seq<Op<V>>) returns (answers: seq<Answer<V>>)
    requires IsRounding(rnd) && 1 <= n < TWO32 && forall k :: hashFn(k) < TWO32
    ensures |answers| == |ops|
    ensures answers == Run(Empty(n), ChainOf(rnd, hashFn, n), ops)
    ensures |ops| < TWO32 && ClashFree(KeysOf(ops), ChainOf(rnd, hashFn, n)) ==> answers == MapRun(map[], ops)
  {
    hide Step, Run, MapRun, D.AllContents, D.Linked, Total, U32, IsRounding, Bucket;
    ghost var idx := ChainOf(rnd, hashFn, n);
    ghost var goal := Run(Empty(n), idx, ops);
    var d := new D.Dict<V>(n, hashFn, rnd);
    answers := [];
    assert ops[0..] == ops && [] + goal == goal;
    for i := 0 to |ops|
      invariant fresh(d) && fresh(d.members) && fresh(d.memberCount) && fresh(d.Pairs()) && d.Valid()
      invariant |answers| == i && d.maxCount == n && d.hashFn == hashFn && d.rnd == rnd
      invariant |d.View()| == n && goal == answers + Run(d.View(), idx, ops[i..])
    {
      ghost var view := d.View();
      RunUnfold(view, idx, ops, i);
      SameChainSameStep(view, d.IndexFn(), idx, ops[i]);
      var a := Do(d, ops[i]);
      answers := answers + [a];
    }
    RunNothing(d.View(), idx, ops);
    ghost var keys := KeysOf(ops);
    if |ops| < TWO32 && ClashFree(keys, idx) {
      EmptyHolds<V>(n, idx, keys);
      RunRefines(Empty(n), idx, map[], ops, keys, 0);
    }
  }

  lemma {:induction false} RunNothing<V>(chains: seq<Chain<V>>, idx: Key -> nat, ops: seq<Op<V>>)
    requires Indexes(idx, |chains|)
    ensures Run(chains, idx, ops[|ops|..]) == []
  {
  }

  lemma {:induction false} EmptyHolds<V>(n: nat, idx: Key -> nat, keys: iset<Key>)
    requires Indexes(idx, n)
    ensures Holds(Empty<V>(n), idx, map[]) && Within(Empty<V>(n), keys, 0)
  {
  }
}
