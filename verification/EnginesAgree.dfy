/** The two GROUP BY engines answer alike, however the rows are spread over threads. */
module EnginesAgree {
  import opened Bits
  import opened GroupBy
  import opened Sharding
  import opened Seqs
  import opened TopK
  import Inline = InlineRowAgg
  import Radix = RadixMultiAgg

  /** Two listings of one map have the same entries. */
  lemma ListsSame<K(!new)>(a: seq<(K, Acc)>, b: seq<(K, Acc)>, m: map<K, Acc>)
    requires Lists(a, m) && Lists(b, m)
    ensures multiset(a) == multiset(b)
  {
    forall x ensures x in a <==> x in b {
      assert x in a ==> (x.0, m[x.0]) in b;
      assert x in b ==> (x.0, m[x.0]) in a;
    }
    SameElements(a, b);
  }

  /** The listing of all groups, or a top-k of it by row count. */
  ghost predicate Answers<K(!new)>(out: seq<(K, Acc)>, groups: map<K, Acc>, k: int) {
    && (k <= 0 ==> Lists(out, groups))
    && (k > 0 ==> exists all :: Lists(all, groups) && IsTopK(out, all, k, ByCount))
  }

  /** Two answers have the same entries, or, under a limit, the same row count at every rank. */
  ghost predicate Agree<K(!new)>(a: seq<(K, Acc)>, b: seq<(K, Acc)>, k: int) {
    && (k <= 0 ==> multiset(a) == multiset(b))
    && (k > 0 ==> |a| == |b| && forall i :: 0 <= i < |a| ==> a[i].1.count == b[i].1.count)
  }

  lemma AnswersAgree<K(!new)>(a: seq<(K, Acc)>, b: seq<(K, Acc)>, groups: map<K, Acc>, k: int)
    requires Answers(a, groups, k) && Answers(b, groups, k)
    ensures Agree(a, b, k)
  {
    if k <= 0 {
      ListsSame(a, b, groups);
    } else {
      var all :| Lists(all, groups) && IsTopK(a, all, k, ByCount);
      var all' :| Lists(all', groups) && IsTopK(b, all', k, ByCount);
      ListsSame(all, all', groups);
      SameCounts(a, b, all, k);
    }
  }

  lemma SameCounts<K(!new)>(a: seq<(K, Acc)>, b: seq<(K, Acc)>, all: seq<(K, Acc)>, k: nat)
    requires IsTopK(a, all, k, ByCount) && IsTopK(b, all, k, ByCount)
    ensures |a| == |b| && forall i :: 0 <= i < |a| ==> a[i].1.count == b[i].1.count
  {
    assert |multiset(a)| == |a| && |multiset(b)| == |b|;
    forall i | 0 <= i < |a| ensures a[i].1.count == b[i].1.count {
      TopKUnique(a, b, all, k, ByCount, i);
    }
  }

  /** Few enough updates, each on a thread of the engine and with a value per aggregate. */
  predicate RunOk<K>(run: seq<Event<K>>, threads: nat, numAggs: nat) {
    && |run| < TWO_32
    && forall i :: 0 <= i < |run| ==> run[i].tid < threads && |run[i].upd.vals| == |run[i].upd.valid| == numAggs
  }

  method RunInline<K(==, !new)>(threads: nat, numAggs: nat, hashOf: K -> u64, run: seq<Event<K>>, k: int)
    returns (out: seq<(K, Acc)>)
    requires RunOk(run, threads, numAggs)
    ensures Answers(out, Fold(RowsOf(run)), k)
  {
    var engine := Inline.RunToGroups(threads, numAggs, hashOf, run);
    out := engine.EmitTopK(k);
  }

  method RunRadix<K(==, !new)>(threads: nat, numAggs: nat, hashOf: K -> u64, run: seq<Event<K>>, k: int)
    returns (out: seq<(K, Acc)>)
    requires RunOk(run, threads, numAggs)
    ensures Answers(out, Fold(RowsOf(run)), k)
  {
    var engine := Radix.RunToGroups(threads, numAggs, hashOf, run);
    out := engine.EmitTopK(k);
  }

  /**
   * Run the same rows through both engines, on any threads and with any hash functions. Without a limit both list
   * one entry per key, with the exact row count, sums and non-null counts; with a limit both list as many groups,
   * with the same row count at every rank.
   */
  method RunBoth<K(==, !new)>(threadsA: nat, threadsB: nat, numAggs: nat, hashA: K -> u64, hashB: K -> u64,
                              runA: seq<Event<K>>, runB: seq<Event<K>>, k: int)
    returns (outA: seq<(K, Acc)>, outB: seq<(K, Acc)>)
    requires RunOk(runA, threadsA, numAggs) && RunOk(runB, threadsB, numAggs)
    requires multiset(RowsOf(runA)) == multiset(RowsOf(runB))
    ensures Agree(outA, outB, k)
    ensures exists groups :: IsGroupBy(groups, RowsOf(runA)) && Answers(outA, groups, k) && Answers(outB, groups, k)
  {
    outA := RunInline(threadsA, numAggs, hashA, runA, k);
    outB := RunRadix(threadsB, numAggs, hashB, runB, k);
    FoldPermutation(RowsOf(runA), RowsOf(runB));
    AnswersAgree(outA, outB, Fold(RowsOf(runA)), k);
    FoldIsGroupBy(RowsOf(runA));
  }
}
