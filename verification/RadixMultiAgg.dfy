/** The second GROUP BY engine: a library map from key to slot, and a flat arena of counters per shard. */
module RadixMultiAgg {
  import opened Bits
  import opened GroupBy
  import opened Seals
  import opened Seqs
  import opened Sharding
  import opened TopK

  // ---- slots of the arena ----

  /** Where slot `i` starts when every slot is `p` words wide: `i * p`, kept linear. */
  function Off(i: nat, p: nat): nat {
    if i == 0 then 0 else Off(i - 1, p) + p
  }

  lemma {:induction false} OffIsMul(i: nat, p: nat)
    ensures Off(i, p) == i * p
  {
    if i > 0 {
      OffIsMul(i - 1, p);
      assert i * p == (i - 1) * p + p;
    }
  }

  /** The words of slot `i`. */
  function Slot(arena: seq<int>, i: nat, p: nat): (r: seq<int>)
    requires Off(i, p) + p <= |arena|
    ensures |r| == p
  {
    arena[Off(i, p)..Off(i, p) + p]
  }

  /** A slot holds the row count, then the sums, then the counts of the aggregates. */
  function AccIn(slot: seq<int>, n: nat): Acc
    requires |slot| == 1 + 2 * n
  {
    Acc(slot[0], slot[1..1 + n], slot[1 + n..])
  }

  lemma {:induction false} SlotFits(i: nat, count: nat, p: nat)
    requires i < count
    ensures Off(i, p) + p <= Off(count, p)
    decreases count
  {
    if i < count - 1 {
      SlotFits(i, count - 1, p);
    }
  }

  lemma SlotsApart(i: nat, j: nat, p: nat)
    requires i != j
    ensures Off(i, p) + p <= Off(j, p) || Off(j, p) + p <= Off(i, p)
  {
    if i < j {
      SlotFits(i, j, p);
    } else {
      SlotFits(j, i, p);
    }
  }

  /** All slots but `idx` are the same in both arenas. */
  ghost predicate SameOthers(a: seq<int>, b: seq<int>, idx: nat, count: nat, p: nat)
    requires Off(count, p) <= |a| && Off(count, p) <= |b|
  {
    forall j: nat :: j < count && j != idx ==> SlotsEqual(a, b, j, p)
  }

  ghost predicate SlotsEqual(a: seq<int>, b: seq<int>, j: nat, p: nat) {
    Off(j, p) + p <= |a| && Off(j, p) + p <= |b| && Slot(a, j, p) == Slot(b, j, p)
  }

  /** A write inside slot `idx` changes that slot only. */
  lemma WriteInSlot(a: seq<int>, idx: nat, count: nat, p: nat, off: nat, v: int)
    requires idx < count && Off(count, p) <= |a| && off < p
    ensures Off(idx, p) + p <= Off(count, p)
    ensures Slot(a[Off(idx, p) + off := v], idx, p) == Slot(a, idx, p)[off := v]
    ensures SameOthers(a, a[Off(idx, p) + off := v], idx, count, p)
  {
    SlotFits(idx, count, p);
    var b := a[Off(idx, p) + off := v];
    forall j: nat | j < count && j != idx ensures SlotsEqual(a, b, j, p) {
      SlotFits(j, count, p);
      SlotsApart(idx, j, p);
    }
  }

  lemma SameOthersRefl(a: seq<int>, idx: nat, count: nat, p: nat)
    requires Off(count, p) <= |a|
    ensures SameOthers(a, a, idx, count, p)
  {
    forall j: nat | j < count && j != idx ensures SlotsEqual(a, a, j, p) {
      SlotFits(j, count, p);
    }
  }

  lemma SameOthersTrans(a: seq<int>, b: seq<int>, c: seq<int>, idx: nat, count: nat, p: nat)
    requires Off(count, p) <= |a| && Off(count, p) <= |b| && Off(count, p) <= |c|
    requires SameOthers(a, b, idx, count, p) && SameOthers(b, c, idx, count, p)
    ensures SameOthers(a, c, idx, count, p)
  {
    forall j: nat | j < count && j != idx ensures SlotsEqual(a, c, j, p) {
      assert SlotsEqual(a, b, j, p) && SlotsEqual(b, c, j, p);
    }
  }

  /** Adds `v` to word `off` of slot `idx`, in place. */
  method AddTo(arena: seq<int>, idx: nat, count: nat, p: nat, off: nat, v: int) returns (a: seq<int>)
    requires idx < count && Off(count, p) <= |arena| && off < p
    ensures |a| == |arena| && Off(idx, p) + p <= |a| && SameOthers(arena, a, idx, count, p)
    ensures Slot(a, idx, p) == Slot(arena, idx, p)[off := Slot(arena, idx, p)[off] + v]
  {
    OffIsMul(idx, p);
    SlotFits(idx, count, p);
    var i := idx * p + off;
    WriteInSlot(arena, idx, count, p, off, arena[i] + v);
    a := arena[i := arena[i] + v];
  }

  /** Adds `v` to sum `k` and one to count `k` of slot `idx`. */
  method BumpAgg(arena: seq<int>, idx: nat, count: nat, n: nat, k: nat, v: int) returns (a: seq<int>)
    requires idx < count && Off(count, 1 + 2 * n) <= |arena| && k < n
    ensures |a| == |arena| && Off(idx, 1 + 2 * n) + (1 + 2 * n) <= |a|
    ensures SameOthers(arena, a, idx, count, 1 + 2 * n)
    ensures var was, now := AccIn(Slot(arena, idx, 1 + 2 * n), n), AccIn(Slot(a, idx, 1 + 2 * n), n);
      now == Acc(was.count, was.sum[k := was.sum[k] + v], was.cnt[k := was.cnt[k] + 1])
  {
    var p := 1 + 2 * n;
    var mid := AddTo(arena, idx, count, p, 1 + k, v);
    AccBump(Slot(arena, idx, p), n, k, v);
    a := AddTo(mid, idx, count, p, 1 + n + k, 1);
    SameOthersTrans(arena, mid, a, idx, count, p);
  }

  /** What adding to the word of a sum and to the word of its count does to the accumulator. */
  lemma AccBump(slot: seq<int>, n: nat, k: nat, v: int)
    requires |slot| == 1 + 2 * n && k < n
    ensures var was, mid := AccIn(slot, n), slot[1 + k := slot[1 + k] + v];
      AccIn(mid[1 + n + k := mid[1 + n + k] + 1], n)
      == Acc(was.count, was.sum[k := was.sum[k] + v], was.cnt[k := was.cnt[k] + 1])
  {
  }

  /** Counts one row in slot `idx`, in place. */
  method BumpSlot(arena: seq<int>, idx: nat, count: nat, n: nat, vals: seq<int>, valid: seq<bool>) returns (a: seq<int>)
    requires idx < count && Off(count, 1 + 2 * n) <= |arena| && |vals| == |valid| == n
    ensures |a| == |arena| && Off(idx, 1 + 2 * n) + (1 + 2 * n) <= |a|
    ensures SameOthers(arena, a, idx, count, 1 + 2 * n)
    ensures AccIn(Slot(a, idx, 1 + 2 * n), n)
         == Plus(AccIn(Slot(arena, idx, 1 + 2 * n), n), Contribution(vals, valid))
  {
    var p := 1 + 2 * n;
    SlotFits(idx, count, p);
    ghost var first := AccIn(Slot(arena, idx, p), n);
    ghost var c := Contribution(vals, valid);
    a := AddTo(arena, idx, count, p, 0, 1);
    for k := 0 to n
      invariant |a| == |arena| && SameOthers(arena, a, idx, count, p)
      invariant AccIn(Slot(a, idx, p), n).count == first.count + 1
      invariant PlusUpTo(AccIn(Slot(a, idx, p), n), first, c, k, n)
    {
      if valid[k] {
        ghost var before := a;
        a := BumpAgg(a, idx, count, n, k, vals[k]);
        SameOthersTrans(arena, before, a, idx, count, p);
      }
    }
    PlusComplete(AccIn(Slot(a, idx, p), n), first, c, n);
  }

  /** Adds a slot of another arena to slot `idx`, word by word. */
  method AddSlot(arena: seq<int>, idx: nat, count: nat, n: nat, src: seq<int>) returns (a: seq<int>)
    requires idx < count && Off(count, 1 + 2 * n) <= |arena| && |src| == 1 + 2 * n
    ensures |a| == |arena| && Off(idx, 1 + 2 * n) + (1 + 2 * n) <= |a|
    ensures SameOthers(arena, a, idx, count, 1 + 2 * n)
    ensures AccIn(Slot(a, idx, 1 + 2 * n), n) == Plus(AccIn(Slot(arena, idx, 1 + 2 * n), n), AccIn(src, n))
  {
    var p := 1 + 2 * n;
    SlotFits(idx, count, p);
    ghost var first := Slot(arena, idx, p);
    a := arena;
    SameOthersRefl(a, idx, count, p);
    for i := 0 to p
      invariant |a| == |arena| && SameOthers(arena, a, idx, count, p)
      invariant forall j :: 0 <= j < i ==> Slot(a, idx, p)[j] == first[j] + src[j]
      invariant forall j :: i <= j < p ==> Slot(a, idx, p)[j] == first[j]
    {
      ghost var before := a;
      a := AddTo(a, idx, count, p, i, src[i]);
      SameOthersTrans(arena, before, a, idx, count, p);
    }
    ghost var s := Slot(a, idx, p);
    PlusComplete(AccIn(s, n), AccIn(first, n), AccIn(src, n), n);
  }

  /** The first `k` aggregates have been added, the others not yet. */
  ghost predicate PlusUpTo(cur: Acc, first: Acc, c: Acc, k: nat, n: nat) {
    && |cur.sum| == |cur.cnt| == |first.sum| == |first.cnt| == |c.sum| == |c.cnt| == n
    && (forall j :: 0 <= j < n ==> cur.sum[j] == first.sum[j] + (if j < k then c.sum[j] else 0))
    && (forall j :: 0 <= j < n ==> cur.cnt[j] == first.cnt[j] + (if j < k then c.cnt[j] else 0))
  }

  lemma PlusComplete(cur: Acc, first: Acc, c: Acc, n: nat)
    requires PlusUpTo(cur, first, c, n, n) && cur.count == first.count + c.count
    ensures cur == Plus(first, c)
  {
    forall j: nat | j < n
      ensures VecAdd(first.sum, c.sum)[j] == cur.sum[j] && VecAdd(first.cnt, c.cnt)[j] == cur.cnt[j]
    {
      assert At(VecAdd(first.sum, c.sum), j) == At(first.sum, j) + At(c.sum, j);
      assert At(VecAdd(first.cnt, c.cnt), j) == At(first.cnt, j) + At(c.cnt, j);
    }
  }

  // ---- one shard: a map and its arena ----

  /** The map numbers its keys' slots without gaps or sharing, and the slots hold the groups. */
  ghost predicate Stores<K(!new)>(m: map<K, nat>, arena: seq<int>, n: nat, groups: map<K, Acc>) {
    forall seal: Seal :: StoresOpen(seal, m, arena, n, groups)
  }

  ghost predicate StoresOpen<K(!new)>(seal: Seal, m: map<K, nat>, arena: seq<int>, n: nat, groups: map<K, Acc>) {
    && |arena| == Off(|m|, 1 + 2 * n)
    && groups.Keys == m.Keys
    && Numbered(m)
    && (forall k :: k in m ==> HoldsAcc(arena, m[k], n, groups[k]))
  }

  ghost predicate HoldsAcc(arena: seq<int>, i: nat, n: nat, acc: Acc) {
    Off(i, 1 + 2 * n) + (1 + 2 * n) <= |arena| && AccIn(Slot(arena, i, 1 + 2 * n), n) == acc
  }

  /** The keys have distinct slot numbers below their count. */
  ghost predicate Numbered<K(!new)>(m: map<K, nat>) {
    && (forall k :: k in m ==> m[k] < |m|)
    && (forall k, k' :: k in m && k' in m && k != k' ==> m[k] != m[k'])
  }

  lemma NumberedNext<K(!new)>(m: map<K, nat>, k: K)
    requires Numbered(m) && k !in m
    ensures Numbered(m[k := |m|]) && |m[k := |m|]| == |m| + 1
  {
    assert m[k := |m|].Keys == m.Keys + {k};
  }

  lemma Open<K(!new)>(m: map<K, nat>, arena: seq<int>, n: nat, groups: map<K, Acc>)
    requires Stores(m, arena, n, groups)
    ensures StoresOpen(Seal, m, arena, n, groups)
  {
  }

  /** What the invariant says of one key. */
  lemma StoresKey<K(!new)>(m: map<K, nat>, arena: seq<int>, n: nat, groups: map<K, Acc>, k: K)
    requires Stores(m, arena, n, groups)
    ensures k in m <==> k in groups
    ensures k in m ==> m[k] < |m| && HoldsAcc(arena, m[k], n, groups[k])
    ensures |arena| == Off(|m|, 1 + 2 * n)
  {
    Open(m, arena, n, groups);
  }

  lemma StoresKeys<K(!new)>(m: map<K, nat>, arena: seq<int>, n: nat, groups: map<K, Acc>)
    requires Stores(m, arena, n, groups)
    ensures m.Keys == groups.Keys && |arena| == Off(|m|, 1 + 2 * n)
    ensures |arena| / (1 + 2 * n) == |m|
  {
    Open(m, arena, n, groups);
    OffIsMul(|m|, 1 + 2 * n);
    ModUnique(|arena|, 1 + 2 * n, |m|, 0);
  }

  /** A new key gets the next slot, all zero. */
  lemma StoresNewKey<K(!new)>(m: map<K, nat>, arena: seq<int>, n: nat, groups: map<K, Acc>, k: K, zeros: seq<int>)
    requires Stores(m, arena, n, groups) && k !in m
    requires |zeros| == 1 + 2 * n && forall i :: 0 <= i < |zeros| ==> zeros[i] == 0
    ensures Stores(m[k := |m|], arena + zeros, n, groups[k := ZeroAcc(n)])
  {
    Open(m, arena, n, groups);
    var m', arena', groups' := m[k := |m|], arena + zeros, groups[k := ZeroAcc(n)];
    NumberedNext(m, k);
    forall x | x in m' ensures HoldsAcc(arena', m'[x], n, groups'[x]) {
      if x != k {
        ExtendHolds(arena, zeros, m[x], n, groups[x]);
      } else {
        NewSlotZero(arena, zeros, |m|, n);
      }
    }
    Close(m', arena', n, groups');
  }

  /** Folds the invariant up again. */
  lemma Close<K(!new)>(m: map<K, nat>, arena: seq<int>, n: nat, groups: map<K, Acc>)
    requires StoresOpen(Seal, m, arena, n, groups)
    ensures Stores(m, arena, n, groups)
  {
    forall seal: Seal ensures StoresOpen(seal, m, arena, n, groups) {
      assert seal == Seal;
    }
  }

  lemma NewSlotZero(arena: seq<int>, zeros: seq<int>, i: nat, n: nat)
    requires |arena| == Off(i, 1 + 2 * n)
    requires |zeros| == 1 + 2 * n && forall i :: 0 <= i < |zeros| ==> zeros[i] == 0
    ensures HoldsAcc(arena + zeros, i, n, ZeroAcc(n))
  {
    assert Slot(arena + zeros, i, 1 + 2 * n) == zeros;
    assert AccIn(zeros, n) == ZeroAcc(n);
  }

  lemma ExtendHolds(arena: seq<int>, more: seq<int>, i: nat, n: nat, acc: Acc)
    requires HoldsAcc(arena, i, n, acc)
    ensures HoldsAcc(arena + more, i, n, acc)
  {
    assert Slot(arena + more, i, 1 + 2 * n) == Slot(arena, i, 1 + 2 * n);
  }

  function ZeroAcc(n: nat): Acc {
    Acc(0, seq(n, _ => 0), seq(n, _ => 0))
  }

  lemma PlusZero(n: nat, c: Acc)
    requires |c.sum| == |c.cnt| == n
    ensures Plus(ZeroAcc(n), c) == c
  {
    PlusComplete(c, ZeroAcc(n), c, n);
  }

  /** Changing one slot changes one group. */
  lemma StoresChange<K(!new)>(m: map<K, nat>, arena: seq<int>, n: nat, groups: map<K, Acc>, k: K, arena': seq<int>,
                               acc: Acc)
    requires Stores(m, arena, n, groups) && k in m
    requires |arena'| == |arena| == Off(|m|, 1 + 2 * n) && SameOthers(arena, arena', m[k], |m|, 1 + 2 * n)
    requires HoldsAcc(arena', m[k], n, acc)
    ensures Stores(m, arena', n, groups[k := acc])
  {
    Open(m, arena, n, groups);
    var groups' := groups[k := acc];
    forall x | x in m ensures HoldsAcc(arena', m[x], n, groups'[x]) {
      if x != k {
        assert SlotsEqual(arena, arena', m[x], 1 + 2 * n);
      }
    }
    Close(m, arena', n, groups');
  }

  /** The slot after the last one; slot numbers are 32 bits wide. */
  method NextSlot(size: nat, perSlot: nat, ghost slots: nat) returns (idx: nat)
    requires perSlot > 0 && size / perSlot == slots < TWO_32
    ensures idx == slots
  {
    idx := (size / perSlot) % TWO_32;
  }

  /** Finds the slot of `key`, adding a zero slot if it is new. */
  method FindOrAdd<K(==, !new)>(m: map<K, nat>, arena: seq<int>, n: nat, key: K, ghost groups: map<K, Acc>)
    returns (m': map<K, nat>, arena': seq<int>)
    requires Stores(m, arena, n, groups) && |m| < TWO_32
    ensures key in m' && Stores(m', arena', n, if key in groups then groups else groups[key := ZeroAcc(n)])
  {
    StoresKey(m, arena, n, groups, key);
    if key !in m {
      var perSlot := 1 + 2 * n;
      var zeros := seq(perSlot, _ => 0);
      StoresKeys(m, arena, n, groups);
      StoresNewKey(m, arena, n, groups, key, zeros);
      var idx := NextSlot(|arena|, perSlot, |m|);
      m', arena' := m[key := idx], arena + zeros;
    } else {
      m', arena' := m, arena;
    }
  }

  /** Counts one row in a shard. */
  method UpdateShard<K(==, !new)>(m: map<K, nat>, arena: seq<int>, n: nat, key: K, vals: seq<int>, valid: seq<bool>,
                                  ghost groups: map<K, Acc>)
    returns (m': map<K, nat>, arena': seq<int>)
    requires Stores(m, arena, n, groups) && |vals| == |valid| == n && |m| < TWO_32
    ensures Stores(m', arena', n, Absorb(groups, key, Contribution(vals, valid)))
  {
    var a;
    m', a := FindOrAdd(m, arena, n, key, groups);
    ghost var g, c := if key in groups then groups else groups[key := ZeroAcc(n)], Contribution(vals, valid);
    StoresKey(m', a, n, g, key);
    arena' := BumpSlot(a, m'[key], |m'|, n, vals, valid);
    StoresChange(m', a, n, g, key, arena', Plus(g[key], c));
    PlusZero(n, c);
    assert g[key := Plus(g[key], c)] == Absorb(groups, key, c);
  }

  /** Adds one slot of another shard to this one. */
  method AddShardSlot<K(==, !new)>(m: map<K, nat>, arena: seq<int>, n: nat, key: K, src: seq<int>,
                                   ghost groups: map<K, Acc>)
    returns (m': map<K, nat>, arena': seq<int>)
    requires Stores(m, arena, n, groups) && |src| == 1 + 2 * n && |m| < TWO_32
    ensures Stores(m', arena', n, Absorb(groups, key, AccIn(src, n)))
  {
    var a;
    m', a := FindOrAdd(m, arena, n, key, groups);
    ghost var g, c := if key in groups then groups else groups[key := ZeroAcc(n)], AccIn(src, n);
    StoresKey(m', a, n, g, key);
    arena' := AddSlot(a, m'[key], |m'|, n, src);
    StoresChange(m', a, n, g, key, arena', Plus(g[key], c));
    PlusZero(n, c);
    assert g[key := Plus(g[key], c)] == Absorb(groups, key, c);
  }

  method ReadSlot(arena: seq<int>, i: nat, p: nat) returns (slot: seq<int>)
    requires Off(i, p) + p <= |arena|
    ensures slot == Slot(arena, i, p)
  {
    OffIsMul(i, p);
    slot := arena[i * p..i * p + p];
  }

  /** Adds the slot of one key of another shard. */
  method MergeKey<K(==, !new)>(m: map<K, nat>, arena: seq<int>, n: nat, srcMap: map<K, nat>, srcArena: seq<int>, key: K,
                               ghost groups: map<K, Acc>, ghost srcGroups: map<K, Acc>,
                               ghost done: map<K, Acc>, ghost todo: set<K>)
    returns (m': map<K, nat>, arena': seq<int>)
    requires Stores(srcMap, srcArena, n, srcGroups) && key in todo && todo <= srcGroups.Keys
    requires Done(done, srcGroups, todo) && Stores(m, arena, n, Merge(groups, done))
    requires |Merge(groups, srcGroups)| < TWO_32
    ensures Done(done[key := srcGroups[key]], srcGroups, todo - {key})
    ensures Stores(m', arena', n, Merge(groups, done[key := srcGroups[key]]))
  {
    var p := 1 + 2 * n;
    StoresKey(srcMap, srcArena, n, srcGroups, key);
    var src := ReadSlot(srcArena, srcMap[key], p);
    DoneStep(groups, done, srcGroups, todo, key);
    StoresSize(m, arena, n, Merge(groups, done));
    MergeGrows(groups, done, srcGroups);
    m', arena' := AddShardSlot(m, arena, n, key, src, Merge(groups, done));
  }

  /** Adds every slot of another shard, in whatever order the library map yields its keys. */
  method MergeShardInto<K(==, !new)>(m: map<K, nat>, arena: seq<int>, n: nat, srcMap: map<K, nat>, srcArena: seq<int>,
                                     ghost groups: map<K, Acc>, ghost srcGroups: map<K, Acc>)
    returns (m': map<K, nat>, arena': seq<int>)
    requires Stores(m, arena, n, groups) && Stores(srcMap, srcArena, n, srcGroups)
    requires |Merge(groups, srcGroups)| < TWO_32
    ensures Stores(m', arena', n, Merge(groups, srcGroups))
  {
    var todo := srcMap.Keys;
    ghost var done: map<K, Acc> := map[];
    StoresKeys(srcMap, srcArena, n, srcGroups);
    m', arena' := m, arena;
    MergeEmpty(groups);
    while todo != {}
      invariant todo <= srcGroups.Keys && Done(done, srcGroups, todo)
      invariant Stores(m', arena', n, Merge(groups, done))
      decreases |todo|
    {
      var key :| key in todo;
      m', arena' := MergeKey(m', arena', n, srcMap, srcArena, key, groups, srcGroups, done, todo);
      done, todo := done[key := srcGroups[key]], todo - {key};
    }
    DoneAll(done, srcGroups);
  }

  lemma DoneAll<K(!new)>(done: map<K, Acc>, all: map<K, Acc>)
    requires Done(done, all, {})
    ensures done == all
  {
  }

  /** `done` has the groups that are no longer to do. */
  ghost predicate Done<K(!new)>(done: map<K, Acc>, all: map<K, Acc>, todo: set<K>) {
    && done.Keys == all.Keys - todo
    && forall k :: k in done ==> done[k] == all[k]
  }

  lemma DoneStep<K(!new)>(groups: map<K, Acc>, done: map<K, Acc>, all: map<K, Acc>, todo: set<K>, key: K)
    requires Done(done, all, todo) && todo <= all.Keys && key in todo
    ensures Done(done[key := all[key]], all, todo - {key})
    ensures Absorb(Merge(groups, done), key, all[key]) == Merge(groups, done[key := all[key]])
  {
    MergeAbsorb(groups, done, key, all[key]);
  }

  lemma StoresSize<K(!new)>(m: map<K, nat>, arena: seq<int>, n: nat, groups: map<K, Acc>)
    requires Stores(m, arena, n, groups)
    ensures |m| == |groups|
  {
    StoresKeys(m, arena, n, groups);
    assert |m| == |m.Keys| && |groups| == |groups.Keys|;
  }

  lemma MergeGrows<K>(m: map<K, Acc>, part: map<K, Acc>, all: map<K, Acc>)
    requires part.Keys <= all.Keys
    ensures |Merge(m, part)| <= |Merge(m, all)|
  {
    assert Merge(m, part).Keys <= Merge(m, all).Keys;
    SubsetSize(Merge(m, part).Keys, Merge(m, all).Keys);
  }

  lemma MergeEmpty<K>(m: map<K, Acc>)
    ensures Merge(m, map[]) == m
  {
  }

  // ---- the aggregator ----

  /** Shard `s` of thread `t` holds the groups of the rows that thread counted into it. */
  ghost predicate ThreadStores<K(!new)>(shards: seq<seq<map<K, nat>>>, arenas: seq<seq<seq<int>>>, n: nat,
                                        events: seq<Event<K>>, t: nat, s: nat, hashOf: K -> u64)
  {
    && t < |shards| && t < |arenas| && s < |shards[t]| && s < |arenas[t]|
    && Stores(shards[t][s], arenas[t][s], n, Fold(Select(events, t, t + 1, s, hashOf)))
  }

  ghost predicate ThreadsStore<K(!new)>(shards: seq<seq<map<K, nat>>>, arenas: seq<seq<seq<int>>>, n: nat,
                                        events: seq<Event<K>>, maxThreads: nat, hashOf: K -> u64)
  {
    && |shards| == |arenas| == maxThreads
    && (forall t :: 0 <= t < maxThreads ==> |shards[t]| == N_SHARDS && |arenas[t]| == N_SHARDS)
    && (forall t, s :: 0 <= t < maxThreads && 0 <= s < N_SHARDS ==>
      ThreadStores(shards, arenas, n, events, t, s, hashOf))
  }

  /** One more event changes one shard. */
  lemma ThreadsStoreNext<K(!new)>(shards: seq<seq<map<K, nat>>>, arenas: seq<seq<seq<int>>>, n: nat,
                                  events: seq<Event<K>>, maxThreads: nat, hashOf: K -> u64,
                                  e: Event<K>, m: map<K, nat>, a: seq<int>)
    requires ThreadsStore(shards, arenas, n, events, maxThreads, hashOf) && e.tid < maxThreads
    requires Stores(m, a, n, Fold(Select(events, e.tid, e.tid + 1, ShardOf(hashOf(e.upd.key)), hashOf) + [e.upd]))
    ensures var home := ShardOf(hashOf(e.upd.key));
      ThreadsStore(shards[e.tid := shards[e.tid][home := m]], arenas[e.tid := arenas[e.tid][home := a]], n,
                   events + [e], maxThreads, hashOf)
  {
    var home := ShardOf(hashOf(e.upd.key));
    var shards' := shards[e.tid := shards[e.tid][home := m]];
    var arenas' := arenas[e.tid := arenas[e.tid][home := a]];
    forall t, s | 0 <= t < maxThreads && 0 <= s < N_SHARDS
      ensures ThreadStores(shards', arenas', n, events + [e], t, s, hashOf)
    {
      assert ThreadStores(shards, arenas, n, events, t, s, hashOf);
      if t == e.tid && s == home {
        StoresHome(shards', arenas', n, events, e, hashOf);
      } else {
        StoresSame(shards, arenas, shards', arenas', n, events, e, t, s, hashOf);
      }
    }
  }

  /** The event's own shard. */
  lemma StoresHome<K(!new)>(shards: seq<seq<map<K, nat>>>, arenas: seq<seq<seq<int>>>, n: nat,
                            events: seq<Event<K>>, e: Event<K>, hashOf: K -> u64)
    requires var t, s := e.tid, ShardOf(hashOf(e.upd.key));
      && t < |shards| && t < |arenas| && s < |shards[t]| && s < |arenas[t]|
      && Stores(shards[t][s], arenas[t][s], n, Fold(Select(events, t, t + 1, s, hashOf) + [e.upd]))
    ensures ThreadStores(shards, arenas, n, events + [e], e.tid, ShardOf(hashOf(e.upd.key)), hashOf)
  {
    SelectSnoc(events, e, e.tid, e.tid + 1, ShardOf(hashOf(e.upd.key)), hashOf);
  }

  /** Every other shard. */
  lemma StoresSame<K(!new)>(shards: seq<seq<map<K, nat>>>, arenas: seq<seq<seq<int>>>, shards': seq<seq<map<K, nat>>>,
                            arenas': seq<seq<seq<int>>>, n: nat, events: seq<Event<K>>, e: Event<K>, t: nat, s: nat,
                            hashOf: K -> u64)
    requires ThreadStores(shards, arenas, n, events, t, s, hashOf)
    requires t != e.tid || s != ShardOf(hashOf(e.upd.key))
    requires t < |shards'| && t < |arenas'| && s < |shards'[t]| && s < |arenas'[t]|
    requires shards'[t][s] == shards[t][s] && arenas'[t][s] == arenas[t][s]
    ensures ThreadStores(shards', arenas', n, events + [e], t, s, hashOf)
  {
    SelectSnoc(events, e, t, t + 1, s, hashOf);
    assert Select(events, t, t + 1, s, hashOf) + [] == Select(events, t, t + 1, s, hashOf);
  }

  ghost predicate FinalStores<K(!new)>(maps: seq<map<K, nat>>, arenas: seq<seq<int>>, n: nat,
                                       merged: seq<seq<Upd<K>>>, s: nat, hashOf: K -> u64)
  {
    && s < |maps| && s < |arenas| && s < |merged|
    && InShard(merged[s], s, hashOf)
    && Stores(maps[s], arenas[s], n, Fold(merged[s]))
  }

  ghost predicate FinalsStore<K(!new)>(maps: seq<map<K, nat>>, arenas: seq<seq<int>>, n: nat,
                                       merged: seq<seq<Upd<K>>>, hashOf: K -> u64)
  {
    && |maps| == |arenas| == |merged| == N_SHARDS
    && (forall s :: 0 <= s < N_SHARDS ==> FinalStores(maps, arenas, n, merged, s, hashOf))
  }

  lemma FinalsStoreNext<K(!new)>(maps: seq<map<K, nat>>, arenas: seq<seq<int>>, n: nat, merged: seq<seq<Upd<K>>>,
                                 hashOf: K -> u64, home: nat, m: map<K, nat>, a: seq<int>, rows: seq<Upd<K>>)
    requires FinalsStore(maps, arenas, n, merged, hashOf) && home < N_SHARDS
    requires InShard(rows, home, hashOf) && Stores(m, a, n, Fold(rows))
    ensures FinalsStore(maps[home := m], arenas[home := a], n, merged[home := rows], hashOf)
  {
    var maps', arenas', merged' := maps[home := m], arenas[home := a], merged[home := rows];
    forall s | 0 <= s < N_SHARDS ensures FinalStores(maps', arenas', n, merged', s, hashOf) {
      assert FinalStores(maps, arenas, n, merged, s, hashOf);
    }
  }

  lemma FinalsInShard<K(!new)>(maps: seq<map<K, nat>>, arenas: seq<seq<int>>, n: nat,
                               merged: seq<seq<Upd<K>>>, hashOf: K -> u64)
    requires FinalsStore(maps, arenas, n, merged, hashOf)
    ensures forall s :: 0 <= s < N_SHARDS ==> InShard(merged[s], s, hashOf)
  {
    forall s | 0 <= s < N_SHARDS ensures InShard(merged[s], s, hashOf) {
      assert FinalStores(maps, arenas, n, merged, s, hashOf);
    }
  }

  /** Merges one thread's shard. */
  method MergeThread<K(==, !new)>(m: map<K, nat>, a: seq<int>, n: nat, srcMap: map<K, nat>, srcArena: seq<int>,
                                  ghost rows: seq<Upd<K>>, ghost log: seq<Event<K>>, ghost t: nat, ghost s: nat,
                                  ghost hashOf: K -> u64)
    returns (m': map<K, nat>, a': seq<int>)
    requires |rows| + |log| < TWO_32
    requires Stores(m, a, n, Fold(rows + ThreadByThread(log, t, s, hashOf)))
    requires Stores(srcMap, srcArena, n, Fold(Select(log, t, t + 1, s, hashOf)))
    ensures Stores(m', a', n, Fold(rows + ThreadByThread(log, t + 1, s, hashOf)))
  {
    ghost var so, more := rows + ThreadByThread(log, t, s, hashOf), Select(log, t, t + 1, s, hashOf);
    MergeBound(rows, log, t, s, hashOf);
    m', a' := MergeShardInto(m, a, n, srcMap, srcArena, Fold(so), Fold(more));
  }

  /** Adding thread `t`'s rows to those merged so far. */
  lemma MergeBound<K>(rows: seq<Upd<K>>, events: seq<Event<K>>, t: nat, s: nat, hashOf: K -> u64)
    requires |rows| + |events| < TWO_32
    ensures var so, more := rows + ThreadByThread(events, t, s, hashOf), Select(events, t, t + 1, s, hashOf);
      && Fold(rows + ThreadByThread(events, t + 1, s, hashOf)) == Merge(Fold(so), Fold(more))
      && |Merge(Fold(so), Fold(more))| < TWO_32
  {
    var so, more := rows + ThreadByThread(events, t, s, hashOf), Select(events, t, t + 1, s, hashOf);
    FoldConcat(so, more);
    NextThreadRows(rows, events, t, s, hashOf);
    FoldSize(so + more);
  }

  /** Counts one event in its thread's shard. */
  method CountEvent<K(==, !new)>(shards: seq<seq<map<K, nat>>>, arenas: seq<seq<seq<int>>>, n: nat, e: Event<K>,
                                 hashOf: K -> u64, ghost events: seq<Event<K>>, ghost maxThreads: nat)
    returns (shards': seq<seq<map<K, nat>>>, arenas': seq<seq<seq<int>>>)
    requires ThreadsStore(shards, arenas, n, events, maxThreads, hashOf)
    requires e.tid < maxThreads && |e.upd.vals| == |e.upd.valid| == n && |events| < TWO_32
    ensures ThreadsStore(shards', arenas', n, events + [e], maxThreads, hashOf)
  {
    var tid, shard := e.tid, ShardMask(hashOf(e.upd.key));
    assert ThreadStores(shards, arenas, n, events, tid, shard, hashOf);
    var m, a := CountInShard(shards[tid][shard], arenas[tid][shard], n, e.upd,
                             Select(events, tid, tid + 1, shard, hashOf));
    ThreadsStoreNext(shards, arenas, n, events, maxThreads, hashOf, e, m, a);
    shards', arenas' := shards[tid := shards[tid][shard := m]], arenas[tid := arenas[tid][shard := a]];
  }

  method CountInShard<K(==, !new)>(m: map<K, nat>, a: seq<int>, n: nat, u: Upd<K>, ghost mine: seq<Upd<K>>)
    returns (m': map<K, nat>, a': seq<int>)
    requires Stores(m, a, n, Fold(mine)) && |u.vals| == |u.valid| == n && |mine| < TWO_32
    ensures Stores(m', a', n, Fold(mine + [u]))
  {
    StoresSize(m, a, n, Fold(mine));
    FoldSize(mine);
    m', a' := UpdateShard(m, a, n, u.key, u.vals, u.valid, Fold(mine));
    FoldSnoc(mine, u);
  }

  /** Adds one shard of every thread to a final shard. */
  method MergeShards<K(==, !new)>(m0: map<K, nat>, a0: seq<int>, n: nat, shards: seq<seq<map<K, nat>>>,
                                  arenas: seq<seq<seq<int>>>, shard: nat, ghost rows: seq<Upd<K>>,
                                  ghost events: seq<Event<K>>, maxThreads: nat, ghost hashOf: K -> u64)
    returns (m: map<K, nat>, a: seq<int>)
    requires shard < N_SHARDS && ThreadsStore(shards, arenas, n, events, maxThreads, hashOf)
    requires Stores(m0, a0, n, Fold(rows)) && |rows| + |events| < TWO_32
    ensures Stores(m, a, n, Fold(rows + ThreadByThread(events, maxThreads, shard, hashOf)))
  {
    m, a := m0, a0;
    assert rows + ThreadByThread(events, 0, shard, hashOf) == rows;
    for t := 0 to maxThreads
      invariant Stores(m, a, n, Fold(rows + ThreadByThread(events, t, shard, hashOf)))
    {
      assert ThreadStores(shards, arenas, n, events, t, shard, hashOf);
      m, a := MergeThread(m, a, n, shards[t][shard], arenas[t][shard], rows, events, t, shard, hashOf);
    }
  }

  class RadixMultiAgg<K(==, !new)> {
    const hashOf: K -> u64
    const numAggs: nat
    const maxThreads: nat
    var shards: seq<seq<map<K, nat>>>         // per thread and shard: the slot of each key
    var arenas: seq<seq<seq<int>>>            // per thread and shard: the slots
    var finalMaps: seq<map<K, nat>>
    var finalArenas: seq<seq<int>>
    ghost var events: seq<Event<K>>           // every Update so far
    ghost var merged: seq<seq<Upd<K>>>        // the rows each final shard has absorbed

    ghost predicate Valid()
      reads this
    {
      && (forall i :: 0 <= i < |events| ==> events[i].tid < maxThreads)
      && ThreadsStore(shards, arenas, numAggs, events, maxThreads, hashOf)
      && FinalsStore(finalMaps, finalArenas, numAggs, merged, hashOf)
    }

    constructor (maxThreads: nat, numAggs: nat, hashOf: K -> u64)
      ensures Valid()
      ensures this.maxThreads == maxThreads && this.numAggs == numAggs && this.hashOf == hashOf
      ensures events == [] && merged == seq(N_SHARDS, _ => [])
    {
      this.maxThreads, this.numAggs, this.hashOf := maxThreads, numAggs, hashOf;
      shards := seq(maxThreads, _ => seq(N_SHARDS, _ => map[]));
      arenas := seq(maxThreads, _ => seq(N_SHARDS, _ => []));
      finalMaps, finalArenas := seq(N_SHARDS, _ => map[]), seq(N_SHARDS, _ => []);
      events, merged := [], seq(N_SHARDS, _ => []);
      new;
      StoresNothing<K>(numAggs);
      assert forall s :: 0 <= s < N_SHARDS ==> FinalStores(finalMaps, finalArenas, numAggs, merged, s, hashOf);
      assert forall t, s :: 0 <= t < maxThreads && 0 <= s < N_SHARDS ==>
          ThreadStores(shards, arenas, numAggs, events, t, s, hashOf);
    }

    /** Counts one row on thread `tid`. */
    method Update(tid: nat, key: K, vals: seq<int>, valid: seq<bool>)
      requires Valid() && tid < maxThreads && |vals| == |valid| == numAggs
      requires |events| < TWO_32
      modifies this
      ensures Valid()
      ensures events == old(events) + [Event(tid, Upd(key, vals, valid))] && merged == old(merged)
    {
      var e := Event(tid, Upd(key, vals, valid));
      shards, arenas := CountEvent(shards, arenas, numAggs, e, hashOf, events, maxThreads);
      events := events + [e];
    }

    method MergeThreads(shard: nat) returns (m: map<K, nat>, a: seq<int>)
      requires Valid() && shard < N_SHARDS
      requires |merged[shard]| + |events| < TWO_32
      ensures Stores(m, a, numAggs, Fold(merged[shard] + ThreadByThread(events, maxThreads, shard, hashOf)))
    {
      assert FinalStores(finalMaps, finalArenas, numAggs, merged, shard, hashOf);
      m, a := MergeShards(finalMaps[shard], finalArenas[shard], numAggs, shards, arenas, shard, merged[shard], events,
                          maxThreads, hashOf);
    }

    /** Merges shard `shard` of every thread into the final shard. */
    method MergeShard(shard: nat)
      requires Valid() && shard < N_SHARDS
      requires |merged[shard]| + |events| < TWO_32
      modifies this
      ensures Valid() && events == old(events)
      ensures merged == old(merged)[shard := old(merged)[shard] + ThreadByThread(events, maxThreads, shard, hashOf)]
    {
      var m, a := MergeThreads(shard);
      assert FinalStores(finalMaps, finalArenas, numAggs, merged, shard, hashOf);
      ThreadByThreadInShard(events, maxThreads, shard, hashOf);
      ghost var rows := merged[shard] + ThreadByThread(events, maxThreads, shard, hashOf);
      FinalsStoreNext(finalMaps, finalArenas, numAggs, merged, hashOf, shard, m, a, rows);
      finalMaps, finalArenas, merged := finalMaps[shard := m], finalArenas[shard := a], merged[shard := rows];
    }

    /** The groups of one final shard, in whatever order the library map yields its keys. */
    method EmitShard(s: nat) returns (out: seq<(K, Acc)>)
      requires Valid() && s < N_SHARDS
      ensures Lists(out, Fold(merged[s]))
    {
      assert FinalStores(finalMaps, finalArenas, numAggs, merged, s, hashOf);
      ghost var g := Fold(merged[s]);
      var m, a, p := finalMaps[s], finalArenas[s], 1 + 2 * numAggs;
      StoresKeys(m, a, numAggs, g);
      var todo := m.Keys;
      ghost var done: map<K, Acc> := map[];
      out := [];
      while todo != {}
        invariant todo <= m.Keys && Done(done, g, todo)
        invariant Lists(out, done)
        decreases |todo|
      {
        var key :| key in todo;
        StoresKey(m, a, numAggs, g, key);
        var slot := ReadSlot(a, m[key], p);
        ListsNext(out, done, key, g[key]);
        out := out + [(key, AccIn(slot, numAggs))];
        done, todo := done[key := g[key]], todo - {key};
      }
      DoneAll(done, g);
    }

    /** At most `k` groups with the largest row counts, largest first; every group when `k` is not positive. */
    method EmitTopK(k: int) returns (out: seq<(K, Acc)>)
      requires Valid()
      ensures k <= 0 ==> Lists(out, GroupsBelow(merged, N_SHARDS))
      ensures k > 0 ==> exists all :: Lists(all, GroupsBelow(merged, N_SHARDS)) && IsTopK(out, all, k, ByCount)
    {
      var tables: seq<seq<(K, Acc)>> := [];
      for s := 0 to N_SHARDS
        invariant |tables| == s && Lists(Flatten(tables), GroupsBelow(merged, s))
      {
        var some := EmitShard(s);
        FinalsInShard(finalMaps, finalArenas, numAggs, merged, hashOf);
        ListsNextShard(Flatten(tables), some, merged, s, hashOf);
        assert Init(tables + [some]) == tables;
        tables := tables + [some];
      }
      if k <= 0 {
        out := Flatten(tables);
      } else {
        out := TopKOfTables(tables, k, (g: (K, Acc)) => g.1.count, ByCount);
      }
    }
  }

  lemma StoresNothing<K(!new)>(n: nat)
    ensures Stores<K>(map[], [], n, map[])
  {
    Close<K>(map[], [], n, map[]);
  }

  /** A whole run holds, after one merge per shard, exactly the GROUP BY of all updates. */
  method RunToGroups<K(==, !new)>(maxThreads: nat, numAggs: nat, hashOf: K -> u64, run: seq<Event<K>>)
    returns (agg: RadixMultiAgg<K>)
    requires |run| < TWO_32
    requires forall i :: 0 <= i < |run| ==>
      run[i].tid < maxThreads && |run[i].upd.vals| == |run[i].upd.valid| == numAggs
    ensures agg.Valid() && agg.events == run
    ensures GroupsBelow(agg.merged, N_SHARDS) == Fold(RowsOf(run))
  {
    agg := new RadixMultiAgg(maxThreads, numAggs, hashOf);
    for i := 0 to |run|
      invariant agg.Valid() && fresh(agg)
      invariant agg.maxThreads == maxThreads && agg.numAggs == numAggs && agg.hashOf == hashOf
      invariant agg.events == run[..i] && agg.merged == seq(N_SHARDS, _ => [])
    {
      agg.Update(run[i].tid, run[i].upd.key, run[i].upd.vals, run[i].upd.valid);
      assert run[..i + 1] == run[..i] + [run[i]];
    }
    assert run[..|run|] == run;
    for s := 0 to N_SHARDS
      invariant agg.Valid() && fresh(agg) && agg.events == run
      invariant agg.maxThreads == maxThreads && agg.hashOf == hashOf
      invariant MergedUpTo(agg.merged, run, maxThreads, s, hashOf)
    {
      agg.MergeShard(s);
    }
    AllMerged(agg.merged, run, maxThreads, hashOf);
  }
}
