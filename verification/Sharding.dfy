/** Splitting a run of updates over threads and hash shards, and putting the groups back together. */
module Sharding {
  import opened Bits
  import opened GroupBy
  import opened Seqs

  const N_SHARDS: nat := 16

  /** One call to Update: the thread that made it and the row it counted. */
  datatype Event<K> = Event(tid: nat, upd: Upd<K>)

  /** The low hash bits choose the shard. */
  function ShardOf(h: u64): (s: nat)
    ensures s < N_SHARDS
  {
    h % 16
  }

  /** The shard as the code computes it: the hash and-ed with one less than the shard count. */
  function ShardMask(h: u64): (s: nat)
    ensures s == ShardOf(h)
  {
    Pow2Of48();
    AndMask(h, 4);
    And(h, N_SHARDS - 1)
  }

  function RowsOf<K>(log: seq<Event<K>>): (r: seq<Upd<K>>)
    ensures |r| == |log|
  {
    if log == [] then [] else RowsOf(Init(log)) + [Last(log).upd]
  }

  /** The rows that threads `lo` up to `hi` counted into shard `s`, in order. */
  function Select<K>(log: seq<Event<K>>, lo: nat, hi: nat, s: nat, hashOf: K -> u64): (r: seq<Upd<K>>)
    ensures |r| <= |log|
  {
    if log == [] then []
    else
      var rest := Select(Init(log), lo, hi, s, hashOf);
      var e := Last(log);
      if lo <= e.tid < hi && ShardOf(hashOf(e.upd.key)) == s then rest + [e.upd] else rest
  }

  /** The rows of the shards `lo` up to `hi`, in order. */
  function OfShards<K>(rows: seq<Upd<K>>, lo: nat, hi: nat, hashOf: K -> u64): (r: seq<Upd<K>>)
    ensures |r| <= |rows|
  {
    if rows == [] then []
    else
      var rest := OfShards(Init(rows), lo, hi, hashOf);
      var u := Last(rows);
      if lo <= ShardOf(hashOf(u.key)) < hi then rest + [u] else rest
  }

  /** The rows of shard `s` counted by the threads below `n`, thread by thread. */
  function ThreadByThread<K>(log: seq<Event<K>>, n: nat, s: nat, hashOf: K -> u64): seq<Upd<K>> {
    if n == 0 then [] else ThreadByThread(log, n - 1, s, hashOf) + Select(log, n - 1, n, s, hashOf)
  }

  lemma {:induction false} SelectNextThread<K>(log: seq<Event<K>>, t: nat, s: nat, hashOf: K -> u64)
    ensures multiset(Select(log, 0, t + 1, s, hashOf))
         == multiset(Select(log, 0, t, s, hashOf)) + multiset(Select(log, t, t + 1, s, hashOf))
  {
    if log != [] {
      SelectNextThread(Init(log), t, s, hashOf);
    }
  }

  lemma {:induction false} SelectNoThread<K>(log: seq<Event<K>>, t: nat, s: nat, hashOf: K -> u64)
    ensures Select(log, t, t, s, hashOf) == []
  {
    if log != [] {
      SelectNoThread(Init(log), t, s, hashOf);
    }
  }

  ghost predicate Permutes<K>(a: seq<Upd<K>>, b: seq<Upd<K>>) {
    multiset(a) == multiset(b)
  }

  /** Taking the rows thread by thread only permutes them. */
  lemma ThreadByThreadPermutes<K>(log: seq<Event<K>>, n: nat, s: nat, hashOf: K -> u64)
    ensures Permutes(ThreadByThread(log, n, s, hashOf), Select(log, 0, n, s, hashOf))
  {
    SelectNoThread(log, 0, s, hashOf);
    for t := 0 to n
      invariant Permutes(ThreadByThread(log, t, s, hashOf), Select(log, 0, t, s, hashOf))
    {
      NextThreadPermutes(log, t, s, hashOf);
    }
  }

  lemma NextThreadPermutes<K>(log: seq<Event<K>>, t: nat, s: nat, hashOf: K -> u64)
    requires Permutes(ThreadByThread(log, t, s, hashOf), Select(log, 0, t, s, hashOf))
    ensures Permutes(ThreadByThread(log, t + 1, s, hashOf), Select(log, 0, t + 1, s, hashOf))
  {
    SelectNextThread(log, t, s, hashOf);
    var a, b := ThreadByThread(log, t, s, hashOf), Select(log, t, t + 1, s, hashOf);
    ConcatPermutes(a, b, Select(log, 0, t, s, hashOf), Select(log, 0, t + 1, s, hashOf));
    assert ThreadByThread(log, t + 1, s, hashOf) == a + b;
  }

  /** Adding thread `t`'s rows to `rows` and those of the threads before it. */
  lemma NextThreadRows<K>(rows: seq<Upd<K>>, log: seq<Event<K>>, t: nat, s: nat, hashOf: K -> u64)
    ensures rows + ThreadByThread(log, t, s, hashOf) + Select(log, t, t + 1, s, hashOf)
         == rows + ThreadByThread(log, t + 1, s, hashOf)
    ensures |rows + ThreadByThread(log, t, s, hashOf)| + |Select(log, t, t + 1, s, hashOf)| <= |rows| + |log|
  {
    ThreadByThreadSize(log, t + 1, s, hashOf);
  }

  lemma ThreadByThreadSize<K>(log: seq<Event<K>>, n: nat, s: nat, hashOf: K -> u64)
    ensures |ThreadByThread(log, n, s, hashOf)| <= |log|
  {
    ThreadByThreadPermutes(log, n, s, hashOf);
    assert |multiset(ThreadByThread(log, n, s, hashOf))| == |multiset(Select(log, 0, n, s, hashOf))|;
  }

  /** With every thread selected, what is left is the shard. */
  lemma {:induction false} SelectAllThreads<K>(log: seq<Event<K>>, n: nat, s: nat, hashOf: K -> u64)
    requires forall i :: 0 <= i < |log| ==> log[i].tid < n
    ensures Select(log, 0, n, s, hashOf) == OfShards(RowsOf(log), s, s + 1, hashOf)
  {
    if log != [] {
      SelectAllThreads(Init(log), n, s, hashOf);
      assert Init(RowsOf(log)) == RowsOf(Init(log));
    }
  }

  /** Every group lives in the shard its key hashes to. */
  lemma {:induction false} ShardKeys<K>(rows: seq<Upd<K>>, lo: nat, hi: nat, hashOf: K -> u64)
    ensures forall k :: k in Fold(OfShards(rows, lo, hi, hashOf)) ==> lo <= ShardOf(hashOf(k)) < hi
  {
    if rows != [] {
      ShardKeys(Init(rows), lo, hi, hashOf);
      FoldSnoc(OfShards(Init(rows), lo, hi, hashOf), Last(rows));
    }
  }

  /** The groups of the shards below `s + 1` are those below `s` and those of `s`. */
  lemma {:induction false} NextShard<K>(rows: seq<Upd<K>>, s: nat, hashOf: K -> u64)
    ensures Fold(OfShards(rows, 0, s + 1, hashOf))
         == Fold(OfShards(rows, 0, s, hashOf)) + Fold(OfShards(rows, s, s + 1, hashOf))
  {
    if rows != [] {
      var rest, u := Init(rows), Last(rows);
      NextShard(rest, s, hashOf);
      var a, b, ab := OfShards(rest, 0, s, hashOf), OfShards(rest, s, s + 1, hashOf), OfShards(rest, 0, s + 1, hashOf);
      var home := ShardOf(hashOf(u.key));
      if home < s {
        ShardKeys(rest, s, s + 1, hashOf);
        AddLeft(a, b, ab, u);
      } else if home == s {
        ShardKeys(rest, 0, s, hashOf);
        AddRight(a, b, ab, u);
      }
    }
  }

  /** One more row on the left of a disjoint union of groups. */
  lemma AddLeft<K>(a: seq<Upd<K>>, b: seq<Upd<K>>, ab: seq<Upd<K>>, u: Upd<K>)
    requires Fold(ab) == Fold(a) + Fold(b) && u.key !in Fold(b)
    ensures Fold(ab + [u]) == Fold(a + [u]) + Fold(b)
  {
    FoldSnoc(ab, u);
    FoldSnoc(a, u);
    AbsorbLeft(Fold(a), Fold(b), u.key, Contribution(u.vals, u.valid));
  }

  lemma AddRight<K>(a: seq<Upd<K>>, b: seq<Upd<K>>, ab: seq<Upd<K>>, u: Upd<K>)
    requires Fold(ab) == Fold(a) + Fold(b) && u.key !in Fold(a)
    ensures Fold(ab + [u]) == Fold(a) + Fold(b + [u])
  {
    FoldSnoc(ab, u);
    FoldSnoc(b, u);
    AbsorbRight(Fold(a), Fold(b), u.key, Contribution(u.vals, u.valid));
  }

  lemma AbsorbLeft<K>(m: map<K, Acc>, n: map<K, Acc>, k: K, a: Acc)
    requires k !in n
    ensures Absorb(m + n, k, a) == Absorb(m, k, a) + n
  {
  }

  lemma AbsorbRight<K>(m: map<K, Acc>, n: map<K, Acc>, k: K, a: Acc)
    requires k !in m
    ensures Absorb(m + n, k, a) == m + Absorb(n, k, a)
  {
  }

  lemma {:induction false} AllShards<K>(rows: seq<Upd<K>>, hashOf: K -> u64)
    ensures OfShards(rows, 0, N_SHARDS, hashOf) == rows
    ensures OfShards(rows, 0, 0, hashOf) == []
  {
    if rows != [] {
      AllShards(Init(rows), hashOf);
      assert rows == Init(rows) + [Last(rows)];
    }
  }

  lemma {:induction false} SelectSnoc<K>(log: seq<Event<K>>, e: Event<K>, lo: nat, hi: nat, s: nat, hashOf: K -> u64)
    ensures Select(log + [e], lo, hi, s, hashOf)
         == Select(log, lo, hi, s, hashOf)
            + (if lo <= e.tid < hi && ShardOf(hashOf(e.upd.key)) == s then [e.upd] else [])
  {
    assert Init(log + [e]) == log;
  }

  /** All rows belong to shard `s`. */
  ghost predicate InShard<K>(rows: seq<Upd<K>>, s: nat, hashOf: K -> u64) {
    forall u :: u in rows ==> ShardOf(hashOf(u.key)) == s
  }

  lemma {:induction false} SelectInShard<K>(log: seq<Event<K>>, lo: nat, hi: nat, s: nat, hashOf: K -> u64)
    ensures InShard(Select(log, lo, hi, s, hashOf), s, hashOf)
  {
    if log != [] {
      SelectInShard(Init(log), lo, hi, s, hashOf);
    }
  }

  lemma {:induction false} ThreadByThreadInShard<K>(log: seq<Event<K>>, n: nat, s: nat, hashOf: K -> u64)
    ensures InShard(ThreadByThread(log, n, s, hashOf), s, hashOf)
  {
    if n > 0 {
      ThreadByThreadInShard(log, n - 1, s, hashOf);
      SelectInShard(log, n - 1, n, s, hashOf);
    }
  }

  lemma {:induction false} FoldInShard<K>(rows: seq<Upd<K>>, s: nat, hashOf: K -> u64)
    requires InShard(rows, s, hashOf)
    ensures forall k :: k in Fold(rows) ==> ShardOf(hashOf(k)) == s
  {
    if rows != [] {
      assert Last(rows) in rows;
      FoldInShard(Init(rows), s, hashOf);
    }
  }

  /** The groups of the first `n` shards, when shard `s` has absorbed `merged[s]`. */
  function GroupsBelow<K(==)>(merged: seq<seq<Upd<K>>>, n: nat): map<K, Acc>
    requires n <= |merged|
  {
    if n == 0 then map[] else GroupsBelow(merged, n - 1) + Fold(merged[n - 1])
  }

  lemma {:induction false} GroupsBelowKeys<K>(merged: seq<seq<Upd<K>>>, n: nat, hashOf: K -> u64)
    requires n <= |merged| && forall s :: 0 <= s < n ==> InShard(merged[s], s, hashOf)
    ensures forall k :: k in GroupsBelow(merged, n) ==> ShardOf(hashOf(k)) < n
  {
    if n > 0 {
      GroupsBelowKeys(merged, n - 1, hashOf);
      FoldInShard(merged[n - 1], n - 1, hashOf);
    }
  }

  /** The shards below `n` hold the GROUP BY of their rows. */
  ghost predicate HoldBelow<K>(merged: seq<seq<Upd<K>>>, n: nat, rows: seq<Upd<K>>, hashOf: K -> u64) {
    n <= |merged| && GroupsBelow(merged, n) == Fold(OfShards(rows, 0, n, hashOf))
  }

  /** When each shard has absorbed a permutation of its own rows, the shards hold the GROUP BY of all rows. */
  lemma {:induction false} GroupsBelowAll<K>(merged: seq<seq<Upd<K>>>, n: nat, rows: seq<Upd<K>>, hashOf: K -> u64)
    requires n <= |merged| && forall s :: 0 <= s < n ==> Permutes(merged[s], OfShards(rows, s, s + 1, hashOf))
    ensures HoldBelow(merged, n, rows, hashOf)
  {
    if n == 0 {
      GroupsBelowNone(merged, rows, hashOf);
    } else {
      GroupsBelowAll(merged, n - 1, rows, hashOf);
      GroupsBelowNext(merged, n - 1, rows, hashOf);
    }
  }

  lemma GroupsBelowNone<K>(merged: seq<seq<Upd<K>>>, rows: seq<Upd<K>>, hashOf: K -> u64)
    ensures HoldBelow(merged, 0, rows, hashOf)
  {
    AllShards(rows, hashOf);
  }

  lemma GroupsBelowNext<K>(merged: seq<seq<Upd<K>>>, s: nat, rows: seq<Upd<K>>, hashOf: K -> u64)
    requires s < |merged| && HoldBelow(merged, s, rows, hashOf)
    requires Permutes(merged[s], OfShards(rows, s, s + 1, hashOf))
    ensures HoldBelow(merged, s + 1, rows, hashOf)
  {
    FoldPermutation(merged[s], OfShards(rows, s, s + 1, hashOf));
    NextShard(rows, s, hashOf);
  }

  // ---- listings ----

  /** `out` lists the entries of `m`, each key once. */
  ghost predicate Lists<K(!new)>(out: seq<(K, Acc)>, m: map<K, Acc>) {
    && (forall i, j :: 0 <= i < j < |out| ==> out[i].0 != out[j].0)
    && (forall i :: 0 <= i < |out| ==> out[i].0 in m && m[out[i].0] == out[i].1)
    && (forall k :: k in m ==> (k, m[k]) in out)
  }

  lemma ListsConcat<K(!new)>(a: seq<(K, Acc)>, m: map<K, Acc>, b: seq<(K, Acc)>, n: map<K, Acc>)
    requires Lists(a, m) && Lists(b, n) && m.Keys !! n.Keys
    ensures Lists(a + b, m + n)
  {
    assert (m + n).Keys == m.Keys + n.Keys;
    forall k | k in m + n ensures (k, (m + n)[k]) in a + b {
      if k in n {
        assert (k, n[k]) in b;
      } else {
        assert (k, m[k]) in a;
      }
    }
  }

  /** Appending the listing of shard `s` to that of the shards before it. */
  lemma ListsNextShard<K(!new)>(out: seq<(K, Acc)>, some: seq<(K, Acc)>, merged: seq<seq<Upd<K>>>, s: nat,
                                hashOf: K -> u64)
    requires s < |merged| && forall i :: 0 <= i <= s ==> InShard(merged[i], i, hashOf)
    requires Lists(out, GroupsBelow(merged, s)) && Lists(some, Fold(merged[s]))
    ensures Lists(out + some, GroupsBelow(merged, s + 1))
  {
    GroupsBelowKeys(merged, s, hashOf);
    FoldInShard(merged[s], s, hashOf);
    ListsConcat(out, GroupsBelow(merged, s), some, Fold(merged[s]));
  }

  /** The larger row count is the better group. */
  predicate ByCount<K>(a: (K, Acc), b: (K, Acc)) {
    a.1.count > b.1.count
  }

  lemma ListsNext<K(!new)>(out: seq<(K, Acc)>, m: map<K, Acc>, k: K, acc: Acc)
    requires Lists(out, m) && k !in m
    ensures Lists(out + [(k, acc)], m[k := acc])
  {
    var m', out' := m[k := acc], out + [(k, acc)];
    forall x | x in m' ensures (x, m'[x]) in out' {
      if x != k {
        assert (x, m[x]) in out;
      }
    }
  }

  // ---- a run that merges every shard once ----

  /** The shards below `s` have been merged, the others hold nothing. */
  ghost predicate MergedUpTo<K>(merged: seq<seq<Upd<K>>>, run: seq<Event<K>>, maxThreads: nat, s: nat,
                                hashOf: K -> u64) {
    && |merged| == N_SHARDS
    && (forall i :: 0 <= i < s && i < N_SHARDS ==> merged[i] == ThreadByThread(run, maxThreads, i, hashOf))
    && (forall i :: s <= i < N_SHARDS ==> merged[i] == [])
  }

  /** Merging every shard once, after all updates, gives the GROUP BY of all rows. */
  lemma AllMerged<K>(merged: seq<seq<Upd<K>>>, run: seq<Event<K>>, maxThreads: nat, hashOf: K -> u64)
    requires MergedUpTo(merged, run, maxThreads, N_SHARDS, hashOf)
    requires forall i :: 0 <= i < |run| ==> run[i].tid < maxThreads
    ensures GroupsBelow(merged, N_SHARDS) == Fold(RowsOf(run))
  {
    forall s | 0 <= s < N_SHARDS
      ensures Permutes(merged[s], OfShards(RowsOf(run), s, s + 1, hashOf))
    {
      ThreadByThreadPermutes(run, maxThreads, s, hashOf);
      SelectAllThreads(run, maxThreads, s, hashOf);
    }
    GroupsBelowAll(merged, N_SHARDS, RowsOf(run), hashOf);
    AllShards(RowsOf(run), hashOf);
  }
}
