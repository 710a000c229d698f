/** The sharded, multi-threaded GROUP BY built from probe tables. */
module InlineRowAgg {
  import opened Bits
  import opened GroupBy
  import opened ProbeTable
  import opened Seqs
  import opened Sharding
  import opened TopK

  class InlineRowAgg<K(==, !new)> {
    const hashOf: K -> u64
    const numAggs: nat
    const maxThreads: nat
    var threads: seq<seq<ShardState<K>>>
    var finalShards: seq<ShardState<K>>
    ghost var events: seq<Event<K>>           // every Update so far
    ghost var merged: seq<seq<Upd<K>>>        // the rows each final shard has absorbed
    ghost var shards: set<ShardState<K>>      // all shard objects

    /** Where each shard object sits; none sits twice. */
    ghost predicate Arranged()
      reads this
    {
      && |threads| == maxThreads && |finalShards| == N_SHARDS == |merged|
      && (forall t :: 0 <= t < maxThreads ==> |threads[t]| == N_SHARDS)
      && (forall t, s :: 0 <= t < maxThreads && 0 <= s < N_SHARDS ==>
            threads[t][s] in shards && threads[t][s].tid == t && threads[t][s].sid == s)
      && (forall s :: 0 <= s < N_SHARDS ==>
            finalShards[s] in shards && finalShards[s].tid == maxThreads && finalShards[s].sid == s)
      && (forall x :: x in shards ==> x.tid <= maxThreads && x.sid < N_SHARDS && x == At(x.tid, x.sid))
    }

    ghost function At(t: nat, s: nat): ShardState<K>
      requires t <= maxThreads == |threads| && s < N_SHARDS == |finalShards|
      requires t < maxThreads ==> |threads[t]| == N_SHARDS
      reads this
    {
      if t < maxThreads then threads[t][s] else finalShards[s]
    }

    /** The rows a shard must have counted. */
    ghost function Expected(t: nat, s: nat): seq<Upd<K>>
      requires s < N_SHARDS == |merged|
      reads this
    {
      if t < maxThreads then Select(events, t, t + 1, s, hashOf) else merged[s]
    }

    ghost predicate Sound(x: ShardState<K>)
      reads this, x
    {
      && x.Ready()
      && x.hashOf == hashOf && x.numAggs == numAggs
      && x.sid < N_SHARDS == |merged|
      && x.log == Expected(x.tid, x.sid)
    }

    ghost predicate Valid()
      reads this, shards
    {
      && Arranged()
      && (forall i :: 0 <= i < |events| ==> events[i].tid < maxThreads)
      && (forall s :: 0 <= s < N_SHARDS ==> InShard(merged[s], s, hashOf))
      && (forall x :: x in shards ==> Sound(x))
    }

    constructor (maxThreads: nat, numAggs: nat, hashOf: K -> u64)
      ensures Valid() && fresh(shards)
      ensures this.maxThreads == maxThreads && this.numAggs == numAggs && this.hashOf == hashOf
      ensures events == [] && merged == seq(N_SHARDS, _ => [])
    {
      this.maxThreads, this.numAggs, this.hashOf := maxThreads, numAggs, hashOf;
      events, merged := [], seq(N_SHARDS, _ => []);
      var ts: seq<seq<ShardState<K>>> := [];
      ghost var made: set<ShardState<K>> := {};
      for t := 0 to maxThreads
        invariant |ts| == t
        invariant forall i :: 0 <= i < t ==> IsRow(ts[i], i, made)
        invariant forall x :: x in made ==>
            fresh(x) && IsNew(x, hashOf, numAggs) && x.tid < t && x.sid < N_SHARDS &&
            |ts[x.tid]| == N_SHARDS && ts[x.tid][x.sid] == x
      {
        var row := NewRow(t, numAggs, hashOf);
        ts := ts + [row];
        made := made + set x | x in row;
      }
      var fin := NewRow(maxThreads, numAggs, hashOf);
      threads, finalShards, shards := ts, fin, made + set x | x in fin;
    }

    /** Counts one row on thread `tid`. */
    method Update(tid: nat, key: K, vals: seq<int>, valid: seq<bool>)
      requires Valid() && tid < maxThreads && |vals| == |valid| == numAggs
      requires |events| + 1 < TWO_32
      modifies shards, this`events
      ensures Valid()
      ensures events == old(events) + [Event(tid, Upd(key, vals, valid))]
      ensures shards == old(shards) && merged == old(merged)
    {
      var h := hashOf(key);
      var shard := ShardMask(h);
      var s := threads[tid][shard];
      assert Sound(s);
      ghost var e := Event(tid, Upd(key, vals, valid));
      s.Update(h, key, vals, valid);
      events := events + [e];
      SelectSnoc(old(events), e, tid, tid + 1, shard, hashOf);
      assert Sound(s);
      forall x | x in shards && x != s ensures Sound(x) {
        SelectSnoc(old(events), e, x.tid, x.tid + 1, x.sid, hashOf);
      }
    }

    /** The largest row count shard `shard` has on any thread. */
    method LargestSingle(shard: nat) returns (maxSingle: nat)
      requires Arranged() && shard < N_SHARDS
      ensures forall t :: 0 <= t < maxThreads ==> |threads[t][shard].rows| <= maxSingle
    {
      maxSingle := 0;
      for t := 0 to maxThreads
        invariant forall i :: 0 <= i < t ==> |threads[i][shard].rows| <= maxSingle
      {
        if |threads[t][shard].rows| > maxSingle {
          maxSingle := |threads[t][shard].rows|;
        }
      }
    }

    /** Reserves room for, then adds, shard `shard` of every thread. */
    method MergeThreads(dst: ShardState<K>, shard: nat)
      requires Valid() && shard < N_SHARDS && dst == finalShards[shard]
      requires |dst.log| + |events| < TWO_32
      modifies dst
      ensures dst.Ready()
      ensures dst.log == old(dst.log) + ThreadByThread(events, maxThreads, shard, hashOf)
    {
      assert Sound(dst);
      var maxSingle := LargestSingle(shard);
      dst.Reserve(maxSingle + maxSingle / 4);
      ghost var before := dst.log;
      for t := 0 to maxThreads
        invariant dst.Ready() && OthersSound(dst)
        invariant dst.log == before + ThreadByThread(events, t, shard, hashOf)
      {
        MergeOne(dst, t, shard, before);
      }
    }

    /** Every shard but `dst` is sound. */
    ghost predicate OthersSound(dst: ShardState<K>)
      reads this, shards - {dst}
    {
      forall x :: x in shards && x != dst ==> Sound(x)
    }

    /** Adds thread `t`'s shard to those of the threads before it. */
    method MergeOne(dst: ShardState<K>, t: nat, shard: nat, ghost before: seq<Upd<K>>)
      requires Arranged() && t < maxThreads && shard < N_SHARDS && dst == finalShards[shard]
      requires OthersSound(dst) && dst.Ready() && dst.hashOf == hashOf && dst.numAggs == numAggs
      requires |before| + |events| < TWO_32
      requires dst.log == before + ThreadByThread(events, t, shard, hashOf)
      modifies dst
      ensures dst.Ready() && OthersSound(dst)
      ensures dst.log == before + ThreadByThread(events, t + 1, shard, hashOf)
    {
      NextThreadRows(before, events, t, shard, hashOf);
      var src := threads[t][shard];
      assert Sound(src);
      dst.MergeFrom(src);
    }

    /** Merges shard `shard` of every thread into the final shard. */
    method MergeShard(shard: nat)
      requires Valid() && shard < N_SHARDS
      requires |merged[shard]| + |events| < TWO_32
      modifies shards, this`merged
      ensures Valid() && shards == old(shards)
      ensures merged == old(merged)[shard := old(merged)[shard] + ThreadByThread(events, maxThreads, shard, hashOf)]
    {
      var dst := finalShards[shard];
      assert Sound(dst);
      MergeThreads(dst, shard);
      ThreadByThreadInShard(events, maxThreads, shard, hashOf);
      merged := merged[shard := merged[shard] + ThreadByThread(events, maxThreads, shard, hashOf)];
      assert Sound(dst);
    }

    /** Every group of every final shard (the full emit). */
    method EmitAll() returns (out: seq<(K, Acc)>)
      requires Valid()
      ensures Lists(out, GroupsBelow(merged, N_SHARDS))
    {
      out := [];
      for s := 0 to N_SHARDS
        invariant Lists(out, GroupsBelow(merged, s))
      {
        assert Sound(finalShards[s]);
        var some := finalShards[s].Groups();
        ListsNextShard(out, some, merged, s, hashOf);
        out := out + some;
      }
    }

    /** At most `k` groups with the largest row counts, largest first; every group when `k` is not positive. */
    method EmitTopK(k: int) returns (out: seq<(K, Acc)>)
      requires Valid()
      ensures k <= 0 ==> Lists(out, GroupsBelow(merged, N_SHARDS))
      ensures k > 0 ==> exists all :: Lists(all, GroupsBelow(merged, N_SHARDS)) && IsTopK(out, all, k, ByCount)
    {
      if k <= 0 {
        out := EmitAll();
      } else {
        var tables: seq<seq<(K, Acc)>> := [];
        for s := 0 to N_SHARDS
          invariant |tables| == s && Lists(Flatten(tables), GroupsBelow(merged, s))
        {
          assert Sound(finalShards[s]);
          var some := finalShards[s].Groups();
          ListsNextShard(Flatten(tables), some, merged, s, hashOf);
          assert Init(tables + [some]) == tables;
          tables := tables + [some];
        }
        out := TopKOfTables(tables, k, (g: (K, Acc)) => g.1.count, ByCount);
      }
    }
  }

  /**
   * A whole run: the updates, on whatever threads they fall, then one merge per shard.
   * The final shards list exactly the GROUP BY of all updates.
   */
  method RunToGroups<K(==, !new)>(maxThreads: nat, numAggs: nat, hashOf: K -> u64, run: seq<Event<K>>)
    returns (agg: InlineRowAgg<K>)
    requires |run| < TWO_32
    requires forall i :: 0 <= i < |run| ==>
      run[i].tid < maxThreads && |run[i].upd.vals| == |run[i].upd.valid| == numAggs
    ensures agg.Valid() && agg.events == run
    ensures GroupsBelow(agg.merged, N_SHARDS) == Fold(RowsOf(run))
  {
    agg := new InlineRowAgg(maxThreads, numAggs, hashOf);
    for i := 0 to |run|
      invariant agg.Valid() && fresh(agg) && fresh(agg.shards)
      invariant agg.maxThreads == maxThreads && agg.numAggs == numAggs && agg.hashOf == hashOf
      invariant agg.events == run[..i] && agg.merged == seq(N_SHARDS, _ => [])
    {
      agg.Update(run[i].tid, run[i].upd.key, run[i].upd.vals, run[i].upd.valid);
      assert run[..i + 1] == run[..i] + [run[i]];
    }
    assert run[..|run|] == run;
    for s := 0 to N_SHARDS
      invariant agg.Valid() && fresh(agg) && fresh(agg.shards) && agg.events == run
      invariant agg.maxThreads == maxThreads && agg.hashOf == hashOf
      invariant MergedUpTo(agg.merged, run, maxThreads, s, hashOf)
    {
      agg.MergeShard(s);
    }
    AllMerged(agg.merged, run, maxThreads, hashOf);
  }

  // ---- construction ----

  ghost predicate IsNew<K(!new)>(x: ShardState<K>, hashOf: K -> u64, n: nat)
    reads x
  {
    x.Ready() && x.log == [] && x.hashOf == hashOf && x.numAggs == n
  }

  /** One thread's array of shards. */
  ghost predicate IsRow<K(!new)>(row: seq<ShardState<K>>, t: nat, made: set<ShardState<K>>) {
    && |row| == N_SHARDS
    && forall s :: 0 <= s < N_SHARDS ==> row[s] in made && row[s].tid == t && row[s].sid == s
  }

  method NewRow<K(==, !new)>(t: nat, n: nat, hashOf: K -> u64) returns (row: seq<ShardState<K>>)
    ensures |row| == N_SHARDS
    ensures forall s :: 0 <= s < N_SHARDS ==>
        fresh(row[s]) && IsNew(row[s], hashOf, n) && row[s].tid == t && row[s].sid == s
  {
    row := [];
    for s := 0 to N_SHARDS
      invariant |row| == s
      invariant forall i :: 0 <= i < s ==>
          fresh(row[i]) && IsNew(row[i], hashOf, n) && row[i].tid == t && row[i].sid == i
    {
      var x := new ShardState(hashOf, n, t, s);
      row := row + [x];
    }
  }
}
