/** Counting the distinct values of several sets: one union, or a union per hash bucket. */
module DistinctUnion {
  import opened Bits
  import opened Seqs

  ghost function UnionAll(sets: seq<set<int>>): set<int> {
    if sets == [] then {} else UnionAll(Init(sets)) + Last(sets)
  }

  /** The work of a group: the sizes of its sets added up. */
  function Cost(sets: seq<set<int>>): nat {
    if sets == [] then 0 else Cost(Init(sets)) + |Last(sets)|
  }

  function TotalCost(sets: seq<seq<set<int>>>): nat {
    if sets == [] then 0 else TotalCost(Init(sets)) + Cost(Last(sets))
  }

  /** The bucket of a value. */
  function BucketOf(v: int, w: nat, hash: int -> u64): (b: nat)
    requires w > 0
    ensures b < w
  {
    Rem(hash(v), w)
  }

  /** The values of bucket `b`. */
  ghost function InBucket(s: set<int>, b: nat, w: nat, hash: int -> u64): set<int>
    requires w > 0
  {
    set v | v in s && BucketOf(v, w, hash) == b
  }

  /** The values of the buckets below `b`. */
  ghost function BelowBucket(s: set<int>, b: nat, w: nat, hash: int -> u64): set<int>
    requires w > 0
  {
    set v | v in s && BucketOf(v, w, hash) < b
  }

  lemma NextBucket(s: set<int>, b: nat, w: nat, hash: int -> u64)
    requires w > 0
    ensures |BelowBucket(s, b + 1, w, hash)| == |BelowBucket(s, b, w, hash)| + |InBucket(s, b, w, hash)|
  {
    assert BelowBucket(s, b + 1, w, hash) == BelowBucket(s, b, w, hash) + InBucket(s, b, w, hash);
    assert BelowBucket(s, b, w, hash) * InBucket(s, b, w, hash) == {};
  }

  /** Buckets, one list of values per bucket, as a scatter leaves them. */
  ghost predicate Scattered(buckets: seq<seq<int>>, s: set<int>, w: nat, hash: int -> u64)
    requires w > 0
  {
    && |buckets| == w
    && forall b :: 0 <= b < w ==> Elems(buckets[b]) == InBucket(s, b, w, hash)
  }

  /** Scatters one set's values, in whatever order the set yields them. */
  method Scatter(s: set<int>, w: nat, hash: int -> u64) returns (buckets: seq<seq<int>>)
    requires w > 0
    ensures Scattered(buckets, s, w, hash)
  {
    buckets := seq(w, _ => []);
    var todo := s;
    while todo != {}
      invariant todo <= s && Scattered(buckets, s - todo, w, hash)
      decreases |todo|
    {
      ghost var some := Some(todo);
      var v :| v in todo;
      var b := BucketOf(v, w, hash);
      ScatterOne(buckets, s - todo, v, w, hash);
      assert s - (todo - {v}) == (s - todo) + {v};
      buckets, todo := buckets[b := buckets[b] + [v]], todo - {v};
    }
    assert s - {} == s;
  }

  lemma ScatterOne(buckets: seq<seq<int>>, s: set<int>, v: int, w: nat, hash: int -> u64)
    requires w > 0 && Scattered(buckets, s, w, hash)
    ensures var b := BucketOf(v, w, hash); Scattered(buckets[b := buckets[b] + [v]], s + {v}, w, hash)
  {
    var b := BucketOf(v, w, hash);
    var buckets' := buckets[b := buckets[b] + [v]];
    forall i | 0 <= i < w ensures Elems(buckets'[i]) == InBucket(s + {v}, i, w, hash) {
      if i == b {
        assert Elems(buckets[b] + [v]) == Elems(buckets[b]) + {v};
        assert InBucket(s + {v}, b, w, hash) == InBucket(s, b, w, hash) + {v};
      } else {
        assert InBucket(s + {v}, i, w, hash) == InBucket(s, i, w, hash);
      }
    }
  }

  /** Every source set has been scattered. */
  ghost predicate AllScattered(buffers: seq<seq<seq<int>>>, sets: seq<set<int>>, w: nat, hash: int -> u64)
    requires w > 0
  {
    |buffers| == |sets| && forall i :: 0 <= i < |sets| ==> Scattered(buffers[i], sets[i], w, hash)
  }

  method InsertAll(acc: set<int>, vs: seq<int>) returns (acc': set<int>)
    ensures acc' == acc + Elems(vs)
  {
    acc' := acc;
    for j := 0 to |vs|
      invariant acc' == acc + Elems(vs[..j])
    {
      acc' := acc' + {vs[j]};
      assert vs[..j + 1] == vs[..j] + [vs[j]];
      assert Elems(vs[..j + 1]) == Elems(vs[..j]) + {vs[j]};
    }
    assert vs[..|vs|] == vs;
  }

  /** The number of distinct values in bucket `b` of all sources. */
  method Unite(buffers: seq<seq<seq<int>>>, b: nat, w: nat, ghost sets: seq<set<int>>, ghost hash: int -> u64)
    returns (n: nat)
    requires w > 0 && b < w && AllScattered(buffers, sets, w, hash)
    ensures n == |InBucket(UnionAll(sets), b, w, hash)|
  {
    var acc: set<int> := {};
    for i := 0 to |buffers|
      invariant acc == InBucket(UnionAll(sets[..i]), b, w, hash)
    {
      assert Init(sets[..i + 1]) == sets[..i];
      assert Scattered(buffers[i], sets[i], w, hash);
      assert InBucket(UnionAll(sets[..i + 1]), b, w, hash)
          == InBucket(UnionAll(sets[..i]), b, w, hash) + InBucket(sets[i], b, w, hash);
      acc := InsertAll(acc, buffers[i][b]);
    }
    assert sets[..|sets|] == sets;
    n := |acc|;
  }

  /** The sizes of the bucket unions. */
  ghost predicate BucketSizes(partial: seq<nat>, s: set<int>, w: nat, hash: int -> u64)
    requires w > 0
  {
    |partial| == w && forall b :: 0 <= b < w ==> partial[b] == |InBucket(s, b, w, hash)|
  }

  /** The bucket unions are disjoint and cover the union, so their sizes add up to its size. */
  method AddUp(partial: seq<nat>, w: nat, ghost s: set<int>, ghost hash: int -> u64) returns (total: nat)
    requires w > 0 && BucketSizes(partial, s, w, hash)
    ensures total == |s|
  {
    total := 0;
    assert BelowBucket(s, 0, w, hash) == {};
    for b := 0 to w
      invariant total == |BelowBucket(s, b, w, hash)|
    {
      NextBucket(s, b, w, hash);
      total := total + partial[b];
    }
    assert BelowBucket(s, w, w, hash) == s;
  }

  /** The light route: move the first set, merge the others into it. */
  method UnionSize(sets: seq<set<int>>) returns (n: nat)
    ensures n == |UnionAll(sets)|
  {
    var acc: set<int> := {};
    for i := 0 to |sets|
      invariant acc == UnionAll(sets[..i])
    {
      acc := if i == 0 then sets[0] else acc + sets[i];
      assert Init(sets[..i + 1]) == sets[..i];
    }
    assert sets[..|sets|] == sets;
    n := |acc|;
  }

  /** The heavy route, one worker per source set and then one per bucket. */
  method UnionCountParallel(sets: seq<set<int>>, w: int, hash: int -> u64) returns (n: nat)
    ensures n == |UnionAll(sets)|
  {
    if |sets| == 0 {
      return 0;
    }
    if w < 2 {
      n := UnionSize(sets);
      return;
    }
    var buffers: seq<seq<seq<int>>> := [];
    for i := 0 to |sets|
      invariant AllScattered(buffers, sets[..i], w, hash)
    {
      var b := Scatter(sets[i], w, hash);
      buffers := buffers + [b];
    }
    assert sets[..|sets|] == sets;
    var partial: seq<nat> := [];
    for b := 0 to w
      invariant |partial| == b && forall j :: 0 <= j < b ==> partial[j] == |InBucket(UnionAll(sets), j, w, hash)|
    {
      var size := Unite(buffers, b, w, sets, hash);
      partial := partial + [size];
    }
    n := AddUp(partial, w, UnionAll(sets), hash);
  }
}
