/**
 * COUNT(*) GROUP BY (int, string): per-thread shards of counters, with the last counter's address kept between rows.
 */
module PairCount {
  import opened Bits
  import opened HashCountThread
  import opened HashMerge
  import opened Masks
  import opened Seals
  import opened Seqs
  import opened Sharding
  import opened StrIntRows
  import opened TopK

  // ---- tallies ----

  function Incr(m: map<IntStr, int>, k: IntStr, c: int): map<IntStr, int> {
    m[k := (if k in m then m[k] else 0) + c]
  }

  /** Plain counting: one increment per row. */
  function Tally(m: map<IntStr, int>, rows: seq<IntStr>): map<IntStr, int> {
    if rows == [] then m else Incr(Tally(m, Init(rows)), Last(rows), 1)
  }

  lemma {:induction false} TallySnoc(m: map<IntStr, int>, rows: seq<IntStr>, k: IntStr)
    ensures Tally(m, rows + [k]) == Incr(Tally(m, rows), k, 1)
  {
    assert Init(rows + [k]) == rows;
  }

  lemma KeptPlainRow(m: map<IntStr, int>, ints: seq<int>, strs: seq<Bytes>, keep: Mask, validInt: Mask,
                     validStr: Mask, r: nat)
    requires r < |strs| <= |ints|
    ensures Tally(m, KeptPlainPairs(ints, strs, keep, validInt, validStr, r + 1))
         == var t := Tally(m, KeptPlainPairs(ints, strs, keep, validInt, validStr, r));
            if Passes(keep, r) && Passes(validInt, r) && Passes(validStr, r)
            then Incr(t, IntStr(ints[r], strs[r]), 1) else t
  {
    TallySnoc(m, KeptPlainPairs(ints, strs, keep, validInt, validStr, r), IntStr(ints[r], strs[r]));
  }

  // ---- one shard ----

  /** A hash map whose values sit in one array, which is replaced when it is full. */
  class CounterMap {
    var index: map<IntStr, nat>
    var vals: array<int>
    var size: nat
    ghost var contents: map<IntStr, int>

    ghost predicate Valid()
      reads this, vals
    {
      && size <= vals.Length
      && index.Keys == contents.Keys
      && (forall k :: k in index ==> index[k] < size && vals[index[k]] == contents[k])
      && (forall k, l :: k in index && l in index && index[k] == index[l] ==> k == l)
    }

    /** `arr[i]` is the live counter of `k`. */
    ghost predicate Live(arr: array<int>, i: nat, k: IntStr)
      reads this
    {
      arr == vals && k in index && index[k] == i
    }

    constructor ()
      ensures Valid() && fresh(vals) && contents == map[]
    {
      index, size, contents := map[], 0, map[];
      vals := new int[0];
    }

    /** Adds to the counter at an address, without looking at the map. */
    static method Add(ghost m: CounterMap, arr: array<int>, i: nat, ghost k: IntStr, c: int)
      requires m.Valid() && m.Live(arr, i, k)
      modifies m`contents, arr
      ensures m.Valid() && m.Live(arr, i, k) && m.contents == Incr(old(m.contents), k, c)
    {
      m.contents := Incr(m.contents, k, c);
      arr[i] := arr[i] + c;
    }

    /** The keys and counts, read entry by entry. */
    method Items() returns (m: map<IntStr, int>)
      requires Valid()
      ensures m == contents
    {
      m := map k | k in index :: vals[index[k]];
    }

    /** Moves the values to a larger array. */
    method Grow()
      requires Valid()
      modifies this`vals
      ensures Valid() && fresh(vals) && size < vals.Length
    {
      var bigger := new int[2 * vals.Length + 1];
      for j := 0 to size
        invariant forall l :: 0 <= l < j ==> bigger[l] == vals[l]
        modifies bigger
      {
        bigger[j] := vals[j];
      }
      vals := bigger;
    }

    /** Enters a new key and returns its counter's address. */
    method Emplace(k: IntStr, c: int) returns (arr: array<int>, i: nat)
      requires Valid() && k !in contents
      modifies this, vals
      ensures Valid() && Live(arr, i, k) && contents == Incr(old(contents), k, c)
      ensures vals == old(vals) || fresh(vals)
    {
      if size == vals.Length {
        Grow();
      }
      Put(k, c);
      arr, i := vals, size - 1;
    }

    method Put(k: IntStr, c: int)
      requires Valid() && k !in contents && size < vals.Length
      modifies this`index, this`size, this`contents, vals
      ensures Valid() && contents == Incr(old(contents), k, c)
      ensures size == old(size) + 1 && k in index && index[k] == old(size)
    {
      vals[size] := c;
      index, contents, size := index[k := size], Incr(contents, k, c), size + 1;
    }
  }

  /** The shard of a pair: the low bits of its combined hash. */
  function HomeOf(hashStr: Bytes -> u64, mix: (int, u64) -> u64, k: IntStr): (s: nat)
    ensures s < N_SHARDS
  {
    ShardOf(mix(k.i, hashStr(k.s)))
  }

  /** The entries of shard `s`. */
  ghost function PartOf(hashStr: Bytes -> u64, mix: (int, u64) -> u64, m: map<IntStr, int>, s: nat): map<IntStr, int> {
    map k | k in m && HomeOf(hashStr, mix, k) == s :: m[k]
  }

  // ---- one thread ----

  /** The address of a counter; absent before the first counted row. */
  datatype Cache = NoCache | Cache(k: int, d: nat, arr: array<int>, i: nat)

  class PairThread {
    const hashStr: Bytes -> u64
    const mix: (int, u64) -> u64
    const shards: seq<CounterMap>
    ghost var total: map<IntStr, int>       // the counters of all shards
    ghost var repr: set<object>

    function Home(k: IntStr): (s: nat)
      ensures s < N_SHARDS
    {
      HomeOf(hashStr, mix, k)
    }

    /** The counters shard `s` must hold. */
    ghost function Part(m: map<IntStr, int>, s: nat): map<IntStr, int> {
      PartOf(hashStr, mix, m, s)
    }

    lemma IncrPart(m: map<IntStr, int>, k: IntStr, c: int, s: nat)
      ensures Part(Incr(m, k, c), s) == if Home(k) == s then Incr(Part(m, s), k, c) else Part(m, s)
    {
    }

    ghost predicate Valid()
      reads this, repr
    {
      && this in repr && |shards| == N_SHARDS
      && (forall s :: 0 <= s < N_SHARDS ==> shards[s] in repr && shards[s].vals in repr)
      && (forall s, t :: 0 <= s < t < N_SHARDS ==> shards[s] != shards[t] && shards[s].vals != shards[t].vals)
      && (forall s :: 0 <= s < N_SHARDS ==> Holds(s))
    }

    ghost predicate Holds(s: nat)
      requires s < |shards|
      reads this, shards[s], shards[s].vals
    {
      shards[s].Valid() && shards[s].contents == Part(total, s)
    }

    constructor (hashStr: Bytes -> u64, mix: (int, u64) -> u64)
      ensures Valid() && fresh(repr)
      ensures this.hashStr == hashStr && this.mix == mix && total == map[]
    {
      var made: seq<CounterMap> := [];
      ghost var r: set<object> := {};
      for s := 0 to N_SHARDS
        invariant |made| == s && fresh(r)
        invariant forall i :: 0 <= i < s ==>
          made[i] in r && made[i].vals in r && made[i].Valid() && made[i].contents == map[]
        invariant forall i, j :: 0 <= i < j < s ==> made[i] != made[j] && made[i].vals != made[j].vals
      {
        var m := new CounterMap();
        made, r := made + [m], r + {m, m.vals};
      }
      this.hashStr, this.mix, shards, total := hashStr, mix, made, map[];
      repr := r + {this};
      new;
      assert forall s :: 0 <= s < N_SHARDS ==> Holds(s);
    }

    /** Counts through a cached address, without hashing or probing. */
    method AddCached(arr: array<int>, i: nat, ghost k: IntStr, c: int)
      requires Valid() && shards[Home(k)].Live(arr, i, k)
      modifies repr
      ensures Valid() && shards[Home(k)].Live(arr, i, k) && repr == old(repr)
      ensures total == Incr(old(total), k, c)
    {
      ghost var s := Home(k);
      assert Holds(s);
      CounterMap.Add(shards[s], arr, i, k, c);
      total := Incr(total, k, c);
      forall t | 0 <= t < N_SHARDS ensures Holds(t) {
        assert old(Holds(t));
        IncrPart(old(total), k, c, t);
      }
    }

    /** Enters a key its shard does not hold yet; the shard's counters may move. */
    method AddNew(s: nat, k: IntStr, c: int) returns (arr: array<int>, i: nat)
      requires Valid() && s == Home(k) && k !in shards[s].index
      modifies this`total, this`repr, shards[s], shards[s].vals
      ensures Valid() && shards[s].Live(arr, i, k) && fresh(repr - old(repr))
      ensures total == Incr(old(total), k, c)
    {
      assert Holds(s);
      arr, i := shards[s].Emplace(k, c);
      total, repr := Incr(total, k, c), repr + {shards[s].vals};
      forall t | 0 <= t < N_SHARDS ensures Holds(t) {
        assert old(Holds(t));
        IncrPart(old(total), k, c, t);
      }
    }

    /** Counts through the map: finds or enters the key, and returns its counter's address. */
    method AddHashed(k: IntStr, h: u64, c: int) returns (arr: array<int>, i: nat)
      requires Valid() && h == mix(k.i, hashStr(k.s))
      modifies repr
      ensures Valid() && shards[Home(k)].Live(arr, i, k) && fresh(repr - old(repr))
      ensures total == Incr(old(total), k, c)
    {
      var s := ShardMask(h);
      if k in shards[s].index {
        arr, i := shards[s].vals, shards[s].index[k];
        AddCached(arr, i, k, c);
      } else {
        arr, i := AddNew(s, k, c);
      }
    }

    /** Counts one row, hashing its key. */
    method IncrementRow(k: int, str: Bytes)
      requires Valid()
      modifies repr
      ensures Valid() && fresh(repr - old(repr))
      ensures total == Incr(old(total), IntStr(k, str), 1)
    {
      var arr, i := AddHashed(IntStr(k, str), mix(k, hashStr(str)), 1);
    }

    /** The first `n` rows of a plain row group have been counted. */
    ghost predicate PlainDone(ints: seq<int>, strs: seq<Bytes>, keep: Mask, validInt: Mask, validStr: Mask, n: nat,
                              base: map<IntStr, int>)
      requires n <= |strs| <= |ints|
      reads this, repr
    {
      Valid() && total == Tally(base, KeptPlainPairs(ints, strs, keep, validInt, validStr, n))
    }

    /** Row `r` of a plain row group. */
    method PlainRow(ints: seq<int>, strs: seq<Bytes>, keep: Mask, validInt: Mask, validStr: Mask, r: nat,
                    ghost base: map<IntStr, int>)
      requires r < |strs| <= |ints|
      requires Covers(keep, |strs|) && Covers(validInt, |strs|) && Covers(validStr, |strs|)
      requires PlainDone(ints, strs, keep, validInt, validStr, r, base)
      modifies repr
      ensures fresh(repr - old(repr)) && PlainDone(ints, strs, keep, validInt, validStr, r + 1, base)
    {
      KeptPlainRow(base, ints, strs, keep, validInt, validStr, r);
      if Passes(keep, r) && Passes(validInt, r) && Passes(validStr, r) {
        IncrementRow(ints[r], strs[r]);
      }
    }

    /** The cached address is live for the pair it was taken for. */
    ghost predicate Fresh(c: Cache, dict: seq<Bytes>)
      requires |shards| == N_SHARDS
      reads shards
    {
      match c
      case NoCache => true
      case Cache(k, d, arr, i) => d < |dict| && shards[Home(IntStr(k, dict[d]))].Live(arr, i, IntStr(k, dict[d]))
    }

    /** One counted row: through the cache when the pair repeats, through the map otherwise. */
    method CountRow(cache: Cache, k: int, d: nat, dict: seq<Bytes>, hashes: seq<u64>) returns (cache': Cache)
      requires Valid() && Fresh(cache, dict)
      requires d < |dict| <= |hashes| && hashes[d] == hashStr(dict[d])
      modifies repr
      ensures Valid() && Fresh(cache', dict) && fresh(repr - old(repr))
      ensures total == Incr(old(total), IntStr(k, dict[d]), 1)
    {
      if cache.Cache? && k == cache.k && d == cache.d {
        AddCached(cache.arr, cache.i, IntStr(k, dict[d]), 1);
        cache' := cache;
      } else {
        var arr, i := AddHashed(IntStr(k, dict[d]), mix(k, hashes[d]), 1);
        cache' := Cache(k, d, arr, i);
      }
    }

    /** Ingests a dictionary-encoded row group, keeping the address of the last counter used. */
    method IngestDict(ints: seq<int>, idx: seq<nat>, dict: seq<Bytes>, keep: Mask, validInt: Mask, validStr: Mask,
                      skip: int)
      requires Valid() && |idx| <= |ints|
      requires Covers(keep, |idx|) && Covers(validInt, |idx|) && Covers(validStr, |idx|)
      modifies repr
      ensures Valid() && fresh(repr - old(repr))
      ensures total == Tally(old(total), KeptPairs(ints, idx, dict, keep, validInt, validStr, skip, |idx|))
    {
      var hashes := seq(|dict|, d requires 0 <= d < |dict| => hashStr(dict[d]));
      var cache := NoCache;
      for r := 0 to |idx|
        invariant Valid() && Fresh(cache, dict) && fresh(repr - old(repr))
        invariant total == Tally(old(total), KeptPairs(ints, idx, dict, keep, validInt, validStr, skip, r))
      {
        if Counts(idx, |dict|, keep, validInt, validStr, skip, r) {
          TallySnoc(old(total), KeptPairs(ints, idx, dict, keep, validInt, validStr, skip, r),
                    IntStr(ints[r], dict[idx[r]]));
          cache := CountRow(cache, ints[r], idx[r], dict, hashes);
        }
      }
    }

    /** Ingests a plain row group, hashing every row. */
    method IngestPlain(ints: seq<int>, strs: seq<Bytes>, keep: Mask, validInt: Mask, validStr: Mask)
      requires Valid() && |strs| <= |ints|
      requires Covers(keep, |strs|) && Covers(validInt, |strs|) && Covers(validStr, |strs|)
      modifies repr
      ensures Valid() && fresh(repr - old(repr))
      ensures total == Tally(old(total), KeptPlainPairs(ints, strs, keep, validInt, validStr, |strs|))
    {
      ghost var base := total;
      for r := 0 to |strs|
        invariant fresh(repr - old(repr)) && PlainDone(ints, strs, keep, validInt, validStr, r, base)
      {
        PlainRow(ints, strs, keep, validInt, validStr, r, base);
      }
    }
  }

  // ---- adding maps ----

  /** Key by key sum. */
  function AddMaps<K(==)>(a: map<K, int>, b: map<K, int>): map<K, int> {
    map k | k in a.Keys + b.Keys :: (if k in a then a[k] else 0) + (if k in b then b[k] else 0)
  }

  /** Adds the entries of `b` to `a` one by one, in whatever order the map yields them. */
  method AddInto<K(==)>(a: map<K, int>, b: map<K, int>) returns (r: map<K, int>)
    ensures r == AddMaps(a, b)
  {
    r := a;
    var todo := b.Keys;
    ghost var done: map<K, int> := map[];
    assert AddMaps(a, done) == a;
    while todo != {}
      invariant todo <= b.Keys && done.Keys == b.Keys - todo && (forall k :: k in done ==> done[k] == b[k])
      invariant r == AddMaps(a, done)
      decreases |todo|
    {
      var k :| k in todo;
      AddOne(a, done, k, b[k]);
      r := r[k := (if k in r then r[k] else 0) + b[k]];
      done, todo := done[k := b[k]], todo - {k};
    }
    assert done == b;
  }

  lemma AddOne<K>(a: map<K, int>, b: map<K, int>, k: K, c: int)
    requires k !in b
    ensures var r := AddMaps(a, b); AddMaps(a, b[k := c]) == r[k := (if k in r then r[k] else 0) + c]
  {
  }

  /** Shard `s` of every thread added to `m`, thread by thread. */
  ghost function MergeParts(hashStr: Bytes -> u64, mix: (int, u64) -> u64, m: map<IntStr, int>,
                            totals: seq<map<IntStr, int>>, s: nat): map<IntStr, int> {
    if totals == [] then m
    else AddMaps(MergeParts(hashStr, mix, m, Init(totals), s), PartOf(hashStr, mix, Last(totals), s))
  }

  // ---- what the tallies count ----

  /** `m` counts the rows that hash to shard `s`. */
  ghost predicate CountsShard(hashStr: Bytes -> u64, mix: (int, u64) -> u64, m: map<IntStr, int>,
                              rows: multiset<IntStr>, s: nat) {
    && (forall k :: k in m <==> k in rows && HomeOf(hashStr, mix, k) == s)
    && (forall k :: k in m ==> m[k] == rows[k])
  }

  lemma {:induction false} TallyCounts(rows: seq<IntStr>)
    ensures forall k :: k in Tally(map[], rows) <==> k in multiset(rows)
    ensures forall k :: k in Tally(map[], rows) ==> Tally(map[], rows)[k] == multiset(rows)[k]
  {
    if rows != [] {
      TallyCounts(Init(rows));
      assert rows == Init(rows) + [Last(rows)];
    }
  }

  /** The rows of all threads. */
  ghost function Together(rows: seq<seq<IntStr>>): multiset<IntStr> {
    if rows == [] then multiset{} else Together(Init(rows)) + multiset(Last(rows))
  }

  /** Merging a shard over threads counts the shard's rows of all threads. */
  lemma {:induction false} MergedCounts(hashStr: Bytes -> u64, mix: (int, u64) -> u64, totals: seq<map<IntStr, int>>,
                                        rows: seq<seq<IntStr>>, s: nat)
    requires |totals| == |rows| && forall t :: 0 <= t < |rows| ==> totals[t] == Tally(map[], rows[t])
    ensures CountsShard(hashStr, mix, MergeParts(hashStr, mix, map[], totals, s), Together(rows), s)
  {
    if rows != [] {
      MergedCounts(hashStr, mix, Init(totals), Init(rows), s);
      TallyCounts(Last(rows));
      assert Last(totals) == Tally(map[], Last(rows));
    }
  }

  // ---- the aggregator ----

  class RadixCount2ColIntStr {
    const hashStr: Bytes -> u64
    const mix: (int, u64) -> u64
    const threads: seq<PairThread>
    var finals: seq<map<IntStr, int>>
    ghost var rows: seq<seq<IntStr>>        // what each thread has ingested
    ghost var repr: set<object>

    ghost predicate Valid()
      reads this`rows, this`repr, repr
    {
      && |rows| == |threads| && this !in repr
      && (forall t :: 0 <= t < |threads| ==> threads[t] in repr && threads[t].repr <= repr)
      && (forall t, u :: 0 <= t < u < |threads| ==> threads[t].repr !! threads[u].repr)
      && (forall t :: 0 <= t < |threads| ==> Sound(threads[t], rows[t]))
    }

    ghost predicate Sound(th: PairThread, rs: seq<IntStr>)
      reads th, th.repr
    {
      th.Valid() && th.hashStr == hashStr && th.mix == mix && th.total == Tally(map[], rs)
    }

    constructor (maxThreads: nat, hashStr: Bytes -> u64, mix: (int, u64) -> u64)
      ensures Valid() && fresh(repr) && |threads| == maxThreads && rows == seq(maxThreads, _ => [])
      ensures this.hashStr == hashStr && this.mix == mix && finals == seq(N_SHARDS, _ => map[])
    {
      var made: seq<PairThread> := [];
      ghost var r: set<object> := {};
      for t := 0 to maxThreads
        invariant |made| == t && fresh(r)
        invariant forall i :: 0 <= i < t ==> IsNew(made[i], hashStr, mix, r)
        invariant forall i, j :: 0 <= i < j < t ==> made[i].repr !! made[j].repr
      {
        var th := new PairThread(hashStr, mix);
        made, r := made + [th], r + th.repr;
      }
      this.hashStr, this.mix, threads := hashStr, mix, made;
      finals, rows, repr := seq(N_SHARDS, _ => map[]), seq(maxThreads, _ => []), r;
    }

    /** Ingests a row group on thread `tid`, by the route its form asks for. */
    method Ingest(tid: nat, group: RowGroup)
      requires Valid() && tid < |threads| && group.Ok()
      modifies this`rows, this`repr, repr
      ensures Valid() && fresh(repr - old(repr))
      ensures rows == old(rows)[tid := old(rows)[tid] + group.Rows()]
    {
      assert Sound(threads[tid], rows[tid]);
      IngestGroup(threads[tid], group);
      TallyConcat(rows[tid], group.Rows());
      rows := rows[tid := rows[tid] + group.Rows()];
      repr := repr + threads[tid].repr;
      forall t | 0 <= t < |threads| && t != tid
        ensures Sound(threads[t], rows[t]) && threads[t].repr !! threads[tid].repr
      {
        assert old(Sound(threads[t], rows[t]));
        assert old(threads[t].repr !! threads[tid].repr) by {
          assert t < tid || tid < t;
        }
      }
    }

    /** One thread's part of a shard, added to what has been merged. */
    method MergeOne(out: map<IntStr, int>, th: PairThread, shard: nat, ghost rs: seq<IntStr>)
      returns (r: map<IntStr, int>)
      requires Sound(th, rs) && shard < N_SHARDS
      ensures r == AddMaps(out, PartOf(hashStr, mix, Tally(map[], rs), shard))
    {
      assert th.Holds(shard);
      var part := th.shards[shard].Items();
      r := AddInto(out, part);
    }

    /** Merges shard `shard` of every thread into the final map. */
    method MergeShard(shard: nat)
      requires Valid() && shard < N_SHARDS == |finals|
      modifies this`finals
      ensures finals == old(finals)[shard := MergeParts(hashStr, mix, old(finals)[shard], Tallies(rows), shard)]
    {
      var out := finals[shard];
      for t := 0 to |threads|
        invariant out == MergeParts(hashStr, mix, finals[shard], Tallies(rows[..t]), shard)
        modifies {}
      {
        out := MergeOne(out, threads[t], shard, rows[t]);
        assert Init(rows[..t + 1]) == rows[..t];
      }
      assert rows[..|rows|] == rows;
      finals := finals[shard := out];
    }
  }

  ghost predicate IsNew(th: PairThread, hashStr: Bytes -> u64, mix: (int, u64) -> u64, r: set<object>)
    reads th, th.repr
  {
    th.repr <= r && th.Valid() && th.hashStr == hashStr && th.mix == mix && th.total == map[]
  }

  method IngestGroup(th: PairThread, group: RowGroup)
    requires th.Valid() && group.Ok()
    modifies th.repr
    ensures th.Valid() && fresh(th.repr - old(th.repr))
    ensures th.total == Tally(old(th.total), group.Rows())
  {
    match group
    case Dict(ints, idx, dict, keep, validInt) => th.IngestDict(ints, idx, dict, keep, validInt, AllRows, -1);
    case DictSkip(ints, idx, dict, validInt, skip) => th.IngestDict(ints, idx, dict, AllRows, validInt, AllRows, skip);
    case Plain(ints, strs, keep, validInt) => th.IngestPlain(ints, strs, keep, validInt, AllRows);
  }

  lemma {:induction false} TallyConcat(a: seq<IntStr>, b: seq<IntStr>)
    ensures Tally(map[], a + b) == Tally(Tally(map[], a), b)
  {
    if b == [] {
      assert a + b == a;
    } else {
      TallyConcat(a, Init(b));
      assert Init(a + b) == a + Init(b);
    }
  }

  ghost function Tallies(rows: seq<seq<IntStr>>): (r: seq<map<IntStr, int>>)
    ensures |r| == |rows| && forall t :: 0 <= t < |rows| ==> r[t] == Tally(map[], rows[t])
  {
    if rows == [] then [] else Tallies(Init(rows)) + [Tally(map[], Last(rows))]
  }

  // ---- COUNT(DISTINCT int) GROUP BY string from the merged pairs ----

  /** Every shard has been merged: the final maps count `rows`, shard by shard. */
  ghost predicate Merged(finals: seq<map<IntStr, int>>, hashStr: Bytes -> u64, mix: (int, u64) -> u64,
                         rows: multiset<IntStr>) {
    |finals| == N_SHARDS && forall s :: 0 <= s < N_SHARDS ==> CountsShard(hashStr, mix, finals[s], rows, s)
  }

  /** The pairs of the shards below `n`. */
  ghost function PairsBelow(hashStr: Bytes -> u64, mix: (int, u64) -> u64, rows: multiset<IntStr>,
                            n: nat): set<IntStr> {
    set k | k in rows && HomeOf(hashStr, mix, k) < n
  }

  /** The number of pairs of each string, one shard's share. */
  method BuildLocal(m: map<IntStr, int>) returns (local: map<Bytes, int>)
    ensures CountsDistinct(local, m.Keys)
  {
    local := map[];
    var todo := m.Keys;
    assert m.Keys - todo == {};
    while todo != {}
      invariant todo <= m.Keys && CountsDistinct(local, m.Keys - todo)
      decreases |todo|
    {
      var k :| k in todo;
      OneMorePair(local, m.Keys - todo, k);
      assert m.Keys - todo + {k} == m.Keys - (todo - {k});
      local := local[k.s := (if k.s in local then local[k.s] else 0) + 1];
      todo := todo - {k};
    }
    assert m.Keys - {} == m.Keys;
  }

  lemma AddDistinct(a: map<Bytes, int>, p: set<IntStr>, b: map<Bytes, int>, q: set<IntStr>)
    requires CountsDistinct(a, p) && CountsDistinct(b, q) && p !! q
    ensures CountsDistinct(AddMaps(a, b), p + q)
  {
    var m := AddMaps(a, b);
    assert Strings(p + q) == Strings(p) + Strings(q);
    forall s | s in m ensures m[s] == |DistinctInts(p + q, s)| {
      AddDistinctInts(p, q, s);
      assert s !in a ==> DistinctInts(p, s) == {};
      assert s !in b ==> DistinctInts(q, s) == {};
    }
  }

  lemma AddDistinctInts(p: set<IntStr>, q: set<IntStr>, s: Bytes)
    requires p !! q
    ensures |DistinctInts(p + q, s)| == |DistinctInts(p, s)| + |DistinctInts(q, s)|
  {
    assert DistinctInts(p + q, s) == DistinctInts(p, s) + DistinctInts(q, s);
    forall i | i in DistinctInts(p, s) ensures i !in DistinctInts(q, s) {
      assert IntStr(i, s) in p;
    }
    assert DistinctInts(p, s) !! DistinctInts(q, s);
  }

  /** The entries of a map, in the order it yields them. */
  method Entries(m: map<Bytes, int>, ghost pairs: set<IntStr>) returns (out: seq<Counted>)
    requires CountsDistinct(m, pairs)
    ensures ListsDistinct(out, pairs)
  {
    out := [];
    var todo := m.Keys;
    while todo != {}
      invariant todo <= m.Keys && Emitted(out, m, todo)
      decreases |todo|
    {
      var s :| s in todo;
      EmitOne(out, m, todo, s);
      out, todo := out + [Counted(s, m[s])], todo - {s};
    }
  }

  /** The entries outside `todo` have been listed, once each. */
  ghost predicate Emitted(out: seq<Counted>, m: map<Bytes, int>, todo: set<Bytes>) {
    && (forall i :: 0 <= i < |out| ==> out[i].key in m && out[i].key !in todo && out[i].count == m[out[i].key])
    && (forall i, j :: 0 <= i < j < |out| ==> out[i].key != out[j].key)
    && (forall s :: s in m && s !in todo ==> exists i :: 0 <= i < |out| && out[i].key == s)
  }

  lemma EmitOne(out: seq<Counted>, m: map<Bytes, int>, todo: set<Bytes>, s: Bytes)
    requires Emitted(out, m, todo) && s in todo && s in m
    ensures Emitted(out + [Counted(s, m[s])], m, todo - {s})
  {
    var out' := out + [Counted(s, m[s])];
    forall t | t in m && t !in todo - {s} ensures exists i :: 0 <= i < |out'| && out'[i].key == t {
      if t == s {
        assert out'[|out|].key == t;
      } else {
        var i :| 0 <= i < |out| && out[i].key == t;
        assert out'[i] == out[i];
      }
    }
  }

  /** Per-string counts of all shards: built shard by shard, then added up. */
  method StringCounts(finals: seq<map<IntStr, int>>, ghost hashStr: Bytes -> u64, ghost mix: (int, u64) -> u64,
                      ghost rows: multiset<IntStr>)
    returns (counts: map<Bytes, int>)
    requires Merged(finals, hashStr, mix, rows)
    ensures CountsDistinct(counts, Support(rows))
  {
    counts := map[];
    StringStart(hashStr, mix, rows);
    for s := 0 to N_SHARDS
      invariant CountedBelow(counts, hashStr, mix, rows, s)
    {
      var local := BuildLocal(finals[s]);
      StringStep(counts, local, finals[s], hashStr, mix, rows, s);
      counts := AddInto(counts, local);
    }
    StringEnd(counts, hashStr, mix, rows);
  }

  /** `counts` has the pairs of the shards below `n`, folded. */
  ghost predicate CountedBelow(counts: map<Bytes, int>, hashStr: Bytes -> u64, mix: (int, u64) -> u64,
                               rows: multiset<IntStr>, n: nat) {
    forall seal: Seal :: CountedOpen(seal, counts, hashStr, mix, rows, n)
  }

  ghost predicate CountedOpen(seal: Seal, counts: map<Bytes, int>, hashStr: Bytes -> u64, mix: (int, u64) -> u64,
                              rows: multiset<IntStr>, n: nat) {
    CountsDistinct(counts, PairsBelow(hashStr, mix, rows, n))
  }

  lemma StringStart(hashStr: Bytes -> u64, mix: (int, u64) -> u64, rows: multiset<IntStr>)
    ensures CountedBelow(map[], hashStr, mix, rows, 0)
  {
    assert PairsBelow(hashStr, mix, rows, 0) == {};
  }

  lemma StringEnd(counts: map<Bytes, int>, hashStr: Bytes -> u64, mix: (int, u64) -> u64, rows: multiset<IntStr>)
    requires CountedBelow(counts, hashStr, mix, rows, N_SHARDS)
    ensures CountsDistinct(counts, Support(rows))
  {
    assert CountedOpen(Seal, counts, hashStr, mix, rows, N_SHARDS);
    assert PairsBelow(hashStr, mix, rows, N_SHARDS) == Support(rows);
  }

  lemma NextShardPairs(m: map<IntStr, int>, hashStr: Bytes -> u64, mix: (int, u64) -> u64, rows: multiset<IntStr>,
                       s: nat)
    requires CountsShard(hashStr, mix, m, rows, s)
    ensures PairsBelow(hashStr, mix, rows, s) !! m.Keys
    ensures PairsBelow(hashStr, mix, rows, s + 1) == PairsBelow(hashStr, mix, rows, s) + m.Keys
  {
  }

  lemma StringStep(counts: map<Bytes, int>, local: map<Bytes, int>, m: map<IntStr, int>, hashStr: Bytes -> u64,
                   mix: (int, u64) -> u64, rows: multiset<IntStr>, s: nat)
    requires CountsShard(hashStr, mix, m, rows, s) && CountsDistinct(local, m.Keys)
    requires CountedBelow(counts, hashStr, mix, rows, s)
    ensures CountedBelow(AddMaps(counts, local), hashStr, mix, rows, s + 1)
  {
    assert CountedOpen(Seal, counts, hashStr, mix, rows, s);
    NextShardPairs(m, hashStr, mix, rows, s);
    AddDistinct(counts, PairsBelow(hashStr, mix, rows, s), local, m.Keys);
  }

  ghost function Support(rows: multiset<IntStr>): set<IntStr> {
    set k | k in rows
  }

  /** Each string with its number of distinct ints, or the k largest, largest first. */
  method EmitTopKDistinctByStrKey(agg: RadixCount2ColIntStr, k: int, ghost rows: multiset<IntStr>)
    returns (out: seq<Counted>)
    requires Merged(agg.finals, agg.hashStr, agg.mix, rows)
    ensures k <= 0 ==> ListsDistinct(out, Support(rows))
    ensures k > 0 ==> exists all :: ListsDistinct(all, Support(rows)) && IsTopK(out, all, k, ByTotal)
  {
    var counts := StringCounts(agg.finals, agg.hashStr, agg.mix, rows);
    out := Entries(counts, Support(rows));
    if k > 0 {
      ghost var all := out;
      out := SelectTopK(out, k, ByTotal);
      assert ListsDistinct(all, Support(rows)) && IsTopK(out, all, k, ByTotal);
    }
  }

  // ---- whole runs ----

  lemma {:induction false} TogetherGrow(rows: seq<seq<IntStr>>, t: nat, more: seq<IntStr>)
    requires t < |rows|
    ensures Together(rows[t := rows[t] + more]) == Together(rows) + multiset(more)
  {
    var rows' := rows[t := rows[t] + more];
    if t == |rows| - 1 {
      assert Init(rows') == Init(rows);
    } else {
      TogetherGrow(Init(rows), t, more);
      assert Init(rows') == Init(rows)[t := rows[t] + more];
    }
  }

  lemma {:induction false} NothingTogether(rows: seq<seq<IntStr>>)
    requires forall t :: 0 <= t < |rows| ==> rows[t] == []
    ensures Together(rows) == multiset{}
  {
    if rows != [] {
      NothingTogether(Init(rows));
      assert Last(rows) == [];
    }
  }

  lemma RunStep(rows: seq<seq<IntStr>>, run: seq<Batch>, i: nat, maxThreads: nat)
    requires RunOk(run, maxThreads) && i < |run| && |rows| == maxThreads
    requires Together(rows) == multiset(RunRows(run[..i], maxThreads))
    ensures var t := run[i].tid;
      Together(rows[t := rows[t] + run[i].group.Rows()]) == multiset(RunRows(run[..i + 1], maxThreads))
  {
    TogetherGrow(rows, run[i].tid, run[i].group.Rows());
    MultisetConcat(RunRows(run[..i], maxThreads), run[i].group.Rows());
    assert Init(run[..i + 1]) == run[..i];
  }

  /** The shards below `n` have been merged, the others hold nothing. */
  ghost predicate MergedBelow(finals: seq<map<IntStr, int>>, hashStr: Bytes -> u64, mix: (int, u64) -> u64,
                              rows: seq<seq<IntStr>>, n: nat) {
    && |finals| == N_SHARDS
    && (forall s :: n <= s < N_SHARDS ==> finals[s] == map[])
    && (forall s :: 0 <= s < n && s < N_SHARDS ==> CountsShard(hashStr, mix, finals[s], Together(rows), s))
  }

  /** Ingests a run and merges every shard: the final maps count the rows of the run, whichever thread took them. */
  method RunPairs(maxThreads: nat, hashStr: Bytes -> u64, mix: (int, u64) -> u64, run: seq<Batch>)
    returns (agg: RadixCount2ColIntStr)
    requires RunOk(run, maxThreads)
    ensures Merged(agg.finals, agg.hashStr, agg.mix, multiset(RunRows(run, maxThreads)))
  {
    agg := IngestRun(maxThreads, hashStr, mix, run);
    assert run[..|run|] == run;
    ghost var rows := agg.rows;
    for s := 0 to N_SHARDS
      invariant agg.Valid() && agg.rows == rows && MergedBelow(agg.finals, hashStr, mix, rows, s)
    {
      agg.MergeShard(s);
      MergedCounts(hashStr, mix, Tallies(rows), rows, s);
    }
  }

  /** The first `i` row groups have been ingested, and no shard has been merged. */
  ghost predicate Ingested(agg: RadixCount2ColIntStr, run: seq<Batch>, i: nat, maxThreads: nat)
    requires RunOk(run, maxThreads) && i <= |run|
    reads agg, agg.repr
  {
    && agg.Valid() && |agg.threads| == maxThreads
    && agg.finals == seq(N_SHARDS, _ => map[])
    && Together(agg.rows) == multiset(RunRows(run[..i], maxThreads))
  }

  method IngestNext(agg: RadixCount2ColIntStr, run: seq<Batch>, i: nat, maxThreads: nat)
    requires RunOk(run, maxThreads) && i < |run| && Ingested(agg, run, i, maxThreads)
    modifies agg, agg.repr
    ensures Ingested(agg, run, i + 1, maxThreads) && fresh(agg.repr - old(agg.repr))
  {
    RunStep(agg.rows, run, i, maxThreads);
    agg.Ingest(run[i].tid, run[i].group);
  }

  method IngestRun(maxThreads: nat, hashStr: Bytes -> u64, mix: (int, u64) -> u64, run: seq<Batch>)
    returns (agg: RadixCount2ColIntStr)
    requires RunOk(run, maxThreads)
    ensures fresh(agg) && fresh(agg.repr) && agg.hashStr == hashStr && agg.mix == mix
    ensures Ingested(agg, run, |run|, maxThreads)
  {
    agg := new RadixCount2ColIntStr(maxThreads, hashStr, mix);
    NothingTogether(agg.rows);
    for i := 0 to |run|
      invariant fresh(agg) && fresh(agg.repr) && Ingested(agg, run, i, maxThreads)
    {
      IngestNext(agg, run, i, maxThreads);
    }
  }
}
