/** The two routes to COUNT(DISTINCT int) GROUP BY string answer alike. */
module DistinctRoutes {
  import opened Bits
  import opened HashCountThread
  import opened Seqs
  import opened StrIntRows
  import Pairs = PairCount
  import Sets = StrGroupDistinct

  /** What thread `t` has ingested after a run. */
  ghost function ThreadPairs(run: seq<Batch>, maxThreads: nat, t: nat): set<IntStr>
    requires RunOk(run, maxThreads)
  {
    if run == [] then {}
    else ThreadPairs(Init(run), maxThreads, t) + (if Last(run).tid == t then Elems(Last(run).group.Rows()) else {})
  }

  ghost function AllThreadPairs(run: seq<Batch>, maxThreads: nat, n: nat): (r: seq<set<IntStr>>)
    requires RunOk(run, maxThreads)
    ensures |r| == n && forall t :: 0 <= t < n ==> r[t] == ThreadPairs(run, maxThreads, t)
  {
    seq(n, t requires 0 <= t < n => ThreadPairs(run, maxThreads, t))
  }

  lemma {:induction false} InUnionPairs(all: seq<set<IntStr>>, p: IntStr)
    ensures p in Sets.UnionPairs(all) <==> exists t :: 0 <= t < |all| && p in all[t]
  {
    if all != [] {
      InUnionPairs(Init(all), p);
      assert p in Last(all) ==> p in all[|all| - 1];
      assert forall t :: 0 <= t < |Init(all)| ==> Init(all)[t] == all[t];
    }
  }

  ghost predicate HeldBySome(run: seq<Batch>, maxThreads: nat, p: IntStr)
    requires RunOk(run, maxThreads)
  {
    exists t :: 0 <= t < maxThreads && p in ThreadPairs(run, maxThreads, t)
  }

  lemma ThreadPairsStep(run: seq<Batch>, maxThreads: nat, t: nat, p: IntStr)
    requires RunOk(run, maxThreads) && run != []
    ensures p in ThreadPairs(run, maxThreads, t) <==>
      p in ThreadPairs(Init(run), maxThreads, t) || (Last(run).tid == t && p in Last(run).group.Rows())
  {
  }

  lemma {:induction false} PairsOfRun(run: seq<Batch>, maxThreads: nat, p: IntStr)
    requires RunOk(run, maxThreads)
    ensures p in RunRows(run, maxThreads) <==> HeldBySome(run, maxThreads, p)
  {
    if run != [] {
      var b := Last(run);
      PairsOfRun(Init(run), maxThreads, p);
      forall t: nat ensures p in ThreadPairs(run, maxThreads, t) <==>
        p in ThreadPairs(Init(run), maxThreads, t) || (b.tid == t && p in b.group.Rows())
      {
        ThreadPairsStep(run, maxThreads, t, p);
      }
      if p in b.group.Rows() {
        assert p in ThreadPairs(run, maxThreads, b.tid);
      }
    }
  }

  /** The threads together hold the pairs of the run. */
  lemma UnionOfRun(run: seq<Batch>, maxThreads: nat)
    requires RunOk(run, maxThreads)
    ensures Sets.UnionPairs(AllThreadPairs(run, maxThreads, maxThreads)) == Elems(RunRows(run, maxThreads))
  {
    var all := AllThreadPairs(run, maxThreads, maxThreads);
    forall p ensures p in Sets.UnionPairs(all) <==> p in Elems(RunRows(run, maxThreads)) {
      InUnionPairs(all, p);
      PairsOfRun(run, maxThreads, p);
      if HeldBySome(run, maxThreads, p) {
        var t :| 0 <= t < maxThreads && p in ThreadPairs(run, maxThreads, t);
        assert p in all[t];
      }
    }
  }

  method IngestSets(th: Sets.StrGroups, group: RowGroup)
    requires th.Valid() && group.Ok()
    modifies th, th.Sets()
    ensures th.Valid() && fresh(th.Sets() - old(th.Sets())) && th.pairs == old(th.pairs) + Elems(group.Rows())
  {
    match group
    case Dict(ints, idx, dict, keep, validInt) => th.IngestDict(ints, idx, dict, keep, validInt);
    case DictSkip(ints, idx, dict, validInt, skip) => th.IngestDictSkip(ints, idx, dict, validInt, skip);
    case Plain(ints, strs, keep, validInt) => th.IngestPlain(ints, strs, keep, validInt);
  }

  /** One thread's row groups of a run. */
  method IngestThread(run: seq<Batch>, maxThreads: nat, t: nat) returns (th: Sets.StrGroups)
    requires RunOk(run, maxThreads)
    ensures th.Valid() && fresh(th) && fresh(th.Sets()) && th.pairs == ThreadPairs(run, maxThreads, t)
  {
    th := new Sets.StrGroups();
    for i := 0 to |run|
      invariant th.Valid() && fresh(th) && fresh(th.Sets()) && th.pairs == ThreadPairs(run[..i], maxThreads, t)
    {
      assert Init(run[..i + 1]) == run[..i];
      if run[i].tid == t {
        IngestSets(th, run[i].group);
      }
    }
    assert run[..|run|] == run;
  }

  /** The set route: every thread ingests its row groups, then the threads' sets are merged. */
  method RunSets(maxThreads: nat, workers: int, hash: int -> u64, run: seq<Batch>) returns (out: seq<Counted>)
    requires RunOk(run, maxThreads)
    ensures ListsDistinct(out, Elems(RunRows(run, maxThreads)))
  {
    var threads: seq<Sets.StrGroups> := [];
    for t := 0 to maxThreads
      invariant |threads| == t
      invariant forall i :: 0 <= i < t ==> IsThread(threads[i], ThreadPairs(run, maxThreads, i))
    {
      var th := IngestThread(run, maxThreads, t);
      threads := threads + [th];
    }
    UnionOfRun(run, maxThreads);
    out := Sets.MergeStrGroupIntDistinct(threads, workers, hash, AllThreadPairs(run, maxThreads, maxThreads));
  }

  ghost predicate IsThread(th: Sets.StrGroups, pairs: set<IntStr>)
    reads th, th.Sets()
  {
    th.Valid() && th.pairs == pairs
  }

  /**
   * Whatever the thread counts, the assignment of row groups to threads, the worker count and the hashes,
   * both routes list each string of the counted rows once, with the number of distinct ints it occurs with.
   */
  method BothRoutes(threadsA: nat, threadsB: nat, workers: int, hash: int -> u64, hashStr: Bytes -> u64,
                    mix: (int, u64) -> u64, runA: seq<Batch>, runB: seq<Batch>)
    returns (a: seq<Counted>, b: seq<Counted>)
    requires RunOk(runA, threadsA) && RunOk(runB, threadsB)
    requires Elems(RunRows(runA, threadsA)) == Elems(RunRows(runB, threadsB))
    ensures ListsDistinct(a, Elems(RunRows(runA, threadsA)))
    ensures multiset(a) == multiset(b)
  {
    a := RunSets(threadsA, workers, hash, runA);
    var agg := Pairs.RunPairs(threadsB, hashStr, mix, runB);
    ghost var rows := RunRows(runB, threadsB);
    b := Pairs.EmitTopKDistinctByStrKey(agg, 0, multiset(rows));
    assert Pairs.Support(multiset(rows)) == Elems(rows);
    ListsDistinctAgree(a, b, Elems(rows));
  }
}
