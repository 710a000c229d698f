/** Counting the distinct values of many groups on one balanced pool of workers. */
module DistinctPool {
  import opened Bits
  import opened DistinctUnion
  import opened Seqs
  import opened WorkPool

  /** The heavy groups, and each group's position among them or -1. */
  ghost predicate Routed(heavy: seq<nat>, heavyOf: seq<int>, n: nat) {
    && |heavyOf| == n
    && (forall h :: 0 <= h < |heavy| ==> heavy[h] < n && heavyOf[heavy[h]] == h)
    && (forall g :: 0 <= g < n ==> heavyOf[g] == -1 || (0 <= heavyOf[g] < |heavy| && heavy[heavyOf[g]] == g))
  }

  /** A group is heavy if its cost exceeds a worker's balanced share. */
  method Route(sets: seq<seq<set<int>>>, w: nat) returns (heavy: seq<nat>, heavyOf: seq<int>)
    requires w > 0
    ensures Routed(heavy, heavyOf, |sets|)
  {
    heavy, heavyOf := [], seq(|sets|, _ => -1);
    var balanced := TotalCost(sets) / w + 1;
    for g := 0 to |sets|
      invariant Routed(heavy, heavyOf, |sets|)
      invariant forall i :: g <= i < |sets| ==> heavyOf[i] == -1
    {
      if w > 1 && Cost(sets[g]) > balanced {
        heavyOf := heavyOf[g := |heavy|];
        heavy := heavy + [g];
      }
    }
  }

  /** The sets of the heavy groups. */
  ghost function HeavySets(sets: seq<seq<set<int>>>, heavy: seq<nat>): (r: seq<seq<set<int>>>)
    requires forall h :: 0 <= h < |heavy| ==> heavy[h] < |sets|
    ensures |r| == |heavy| && forall h :: 0 <= h < |heavy| ==> r[h] == sets[heavy[h]]
  {
    seq(|heavy|, h requires 0 <= h < |heavy| => sets[heavy[h]])
  }

  // ---- phase A: scatter ----

  datatype ScatterTask = ScatterTask(hi: nat, si: nat)

  type Buffers = seq<seq<seq<seq<int>>>>

  /** One scatter task per source set of a heavy group, and a buffer for each. */
  ghost predicate Planned(tasks: seq<ScatterTask>, hsets: seq<seq<set<int>>>) {
    && (forall i :: 0 <= i < |tasks| ==> tasks[i].hi < |hsets| && tasks[i].si < |hsets[tasks[i].hi]|)
    && (forall hi, si :: 0 <= hi < |hsets| && 0 <= si < |hsets[hi]| ==> ScatterTask(hi, si) in tasks)
  }

  method PlanScatter(hsets: seq<seq<set<int>>>) returns (tasks: seq<ScatterTask>)
    ensures Planned(tasks, hsets)
  {
    tasks := [];
    for hi := 0 to |hsets|
      invariant forall i :: 0 <= i < |tasks| ==> tasks[i].hi < hi && tasks[i].si < |hsets[tasks[i].hi]|
      invariant forall h, s :: 0 <= h < hi && 0 <= s < |hsets[h]| ==> ScatterTask(h, s) in tasks
    {
      ghost var before := tasks;
      for si := 0 to |hsets[hi]|
        invariant before <= tasks
        invariant forall i :: 0 <= i < |tasks| ==> tasks[i].hi <= hi && tasks[i].si < |hsets[tasks[i].hi]|
        invariant forall s :: 0 <= s < si ==> ScatterTask(hi, s) in tasks
      {
        tasks := tasks + [ScatterTask(hi, si)];
      }
    }
  }

  ghost predicate Shaped(bufs: Buffers, hsets: seq<seq<set<int>>>) {
    |bufs| == |hsets| && forall hi :: 0 <= hi < |hsets| ==> |bufs[hi]| == |hsets[hi]|
  }

  /** The tasks run so far have scattered their sets. */
  ghost predicate ScatterState(bufs: Buffers, tasks: seq<ScatterTask>, hsets: seq<seq<set<int>>>, ran: set<nat>, w: nat,
                               hash: int -> u64)
    requires w > 0 && Planned(tasks, hsets)
  {
    && Shaped(bufs, hsets)
    && forall i :: i in ran && i < |tasks| ==>
        Scattered(bufs[tasks[i].hi][tasks[i].si], hsets[tasks[i].hi][tasks[i].si], w, hash)
  }

  lemma ScatterRan(bufs: Buffers, tasks: seq<ScatterTask>, hsets: seq<seq<set<int>>>, ran: set<nat>, w: nat,
                   hash: int -> u64, i: nat, b: seq<seq<int>>)
    requires w > 0 && Planned(tasks, hsets) && ScatterState(bufs, tasks, hsets, ran, w, hash)
    requires i < |tasks| && Scattered(b, hsets[tasks[i].hi][tasks[i].si], w, hash)
    ensures var t := tasks[i];
      ScatterState(bufs[t.hi := bufs[t.hi][t.si := b]], tasks, hsets, ran + {i}, w, hash)
  {
    var t := tasks[i];
    var bufs' := bufs[t.hi := bufs[t.hi][t.si := b]];
    forall j | j in ran + {i} && j < |tasks|
      ensures Scattered(bufs'[tasks[j].hi][tasks[j].si], hsets[tasks[j].hi][tasks[j].si], w, hash)
    {
      if tasks[j] != t {
        assert bufs'[tasks[j].hi][tasks[j].si] == bufs[tasks[j].hi][tasks[j].si];
      }
    }
  }

  /** Every heavy group's sources are scattered. */
  ghost predicate HeavyScattered(bufs: Buffers, hsets: seq<seq<set<int>>>, w: nat, hash: int -> u64)
    requires w > 0
  {
    |bufs| == |hsets| && forall hi :: 0 <= hi < |hsets| ==> AllScattered(bufs[hi], hsets[hi], w, hash)
  }

  lemma ScatterDone(bufs: Buffers, tasks: seq<ScatterTask>, hsets: seq<seq<set<int>>>, ran: set<nat>, w: nat,
                    hash: int -> u64)
    requires w > 0 && Planned(tasks, hsets) && ScatterState(bufs, tasks, hsets, ran, w, hash)
    requires ran == Below(|tasks|)
    ensures HeavyScattered(bufs, hsets, w, hash)
  {
    forall hi, si | 0 <= hi < |hsets| && 0 <= si < |hsets[hi]| ensures Scattered(bufs[hi][si], hsets[hi][si], w, hash) {
      assert ScatterTask(hi, si) in tasks;
      var i :| 0 <= i < |tasks| && tasks[i] == ScatterTask(hi, si);
      assert i in ran;
    }
  }

  /** Workers drain the scatter tasks, under every interleaving. */
  method RunScatter(hsets: seq<seq<set<int>>>, w: nat, hash: int -> u64) returns (bufs: Buffers)
    requires w > 0
    ensures HeavyScattered(bufs, hsets, w, hash)
  {
    var tasks := PlanScatter(hsets);
    bufs := seq(|hsets|, hi requires 0 <= hi < |hsets| => seq(|hsets[hi]|, _ => seq(w, _ => [])));
    var pool := new WorkPool(|tasks|, w);
    while !pool.Finished()
      invariant pool.Valid() && fresh(pool) && pool.n == |tasks| && |pool.workers| == w
      invariant ScatterState(bufs, tasks, hsets, pool.ran, w, hash)
      decreases pool.StepsLeft()
    {
      ghost var ran := pool.ran;
      var i := pool.Step();
      if i >= 0 {
        var t := tasks[i];
        var b := Scatter(hsets[t.hi][t.si], w, hash);
        ScatterRan(bufs, tasks, hsets, ran, w, hash, i, b);
        bufs := bufs[t.hi := bufs[t.hi][t.si := b]];
      }
    }
    pool.AllRan();
    ScatterDone(bufs, tasks, hsets, pool.ran, w, hash);
  }

  // ---- phase B: union ----

  /** A whole group (bucket -1), or one bucket of a heavy group. */
  datatype Task = Task(g: nat, bucket: int)

  /** The tasks: each light group once, and every bucket of every heavy group. */
  ghost predicate Listed(tasks: seq<Task>, heavy: seq<nat>, heavyOf: seq<int>, w: nat)
    requires Routed(heavy, heavyOf, |heavyOf|)
  {
    && (forall i :: 0 <= i < |tasks| ==> tasks[i].g < |heavyOf| && TaskOk(tasks[i], heavyOf, w))
    && (forall i, j :: 0 <= i < j < |tasks| && tasks[i].bucket < 0 && tasks[j].bucket < 0 ==> tasks[i].g != tasks[j].g)
    && (forall g: nat :: g < |heavyOf| && heavyOf[g] < 0 ==> Task(g, -1) in tasks)
    && (forall g: nat, b :: g < |heavyOf| && heavyOf[g] >= 0 && 0 <= b < w ==> Task(g, b) in tasks)
  }

  predicate TaskOk(t: Task, heavyOf: seq<int>, w: nat)
    requires t.g < |heavyOf|
  {
    if t.bucket < 0 then t.bucket == -1 && heavyOf[t.g] < 0 else heavyOf[t.g] >= 0 && t.bucket < w
  }

  method ListTasks(heavy: seq<nat>, heavyOf: seq<int>, w: nat) returns (tasks: seq<Task>)
    requires Routed(heavy, heavyOf, |heavyOf|)
    ensures Listed(tasks, heavy, heavyOf, w)
  {
    tasks := LightTasks(heavyOf);
    ghost var lights := tasks;
    for hi := 0 to |heavy|
      invariant lights <= tasks
      invariant forall i :: |lights| <= i < |tasks| ==>
        0 <= tasks[i].bucket < w && tasks[i].g < |heavyOf| && heavyOf[tasks[i].g] >= 0
      invariant forall h, b :: 0 <= h < hi && 0 <= b < w ==> Task(heavy[h], b) in tasks
    {
      ghost var before := tasks;
      for b := 0 to w
        invariant before <= tasks
        invariant forall i :: |lights| <= i < |tasks| ==>
          0 <= tasks[i].bucket < w && tasks[i].g < |heavyOf| && heavyOf[tasks[i].g] >= 0
        invariant forall c :: 0 <= c < b ==> Task(heavy[hi], c) in tasks
      {
        tasks := tasks + [Task(heavy[hi], b)];
      }
    }
    forall g: nat, b | g < |heavyOf| && heavyOf[g] >= 0 && 0 <= b < w ensures Task(g, b) in tasks {
      assert Task(heavy[heavyOf[g]], b) in tasks;
    }
    forall g: nat | g < |heavyOf| && heavyOf[g] < 0 ensures Task(g, -1) in tasks {
      assert Task(g, -1) in lights;
    }
  }

  method LightTasks(heavyOf: seq<int>) returns (tasks: seq<Task>)
    ensures forall i :: 0 <= i < |tasks| ==> tasks[i].bucket == -1 && tasks[i].g < |heavyOf| && heavyOf[tasks[i].g] < 0
    ensures forall i, j :: 0 <= i < j < |tasks| ==> tasks[i].g != tasks[j].g
    ensures forall g: nat :: g < |heavyOf| && heavyOf[g] < 0 ==> Task(g, -1) in tasks
  {
    tasks := [];
    for g := 0 to |heavyOf|
      invariant forall i :: 0 <= i < |tasks| ==> tasks[i].bucket == -1 && tasks[i].g < g && heavyOf[tasks[i].g] < 0
      invariant forall i, j :: 0 <= i < j < |tasks| ==> tasks[i].g != tasks[j].g
      invariant forall h: nat :: h < g && heavyOf[h] < 0 ==> Task(h, -1) in tasks
    {
      if heavyOf[g] < 0 {
        tasks := tasks + [Task(g, -1)];
      }
    }
  }

  /** What the workers share: the sets they may consume and the results they write. */
  datatype Shared = Shared(cells: seq<seq<set<int>>>, counts: seq<nat>, hpartial: seq<seq<nat>>)

  ghost predicate SharedShape(sh: Shared, n: nat, heavy: seq<nat>, w: nat) {
    && |sh.cells| == |sh.counts| == n && |sh.hpartial| == |heavy|
    && forall hi :: 0 <= hi < |heavy| ==> |sh.hpartial[hi]| == w
  }

  /** A task that has run has left its result; a light group whose task has not run still has its sets. */
  ghost predicate TaskState(sh: Shared, t: Task, done: bool, sets: seq<seq<set<int>>>, heavyOf: seq<int>, w: nat,
                            hash: int -> u64)
    requires w > 0
  {
    && t.g < |sets| == |sh.cells| == |sh.counts| == |heavyOf|
    && if t.bucket < 0 then
         if done then sh.counts[t.g] == |UnionAll(sets[t.g])| else sh.cells[t.g] == sets[t.g]
       else
         && 0 <= heavyOf[t.g] < |sh.hpartial| && t.bucket < |sh.hpartial[heavyOf[t.g]]|
         && (done ==> sh.hpartial[heavyOf[t.g]][t.bucket] == |InBucket(UnionAll(sets[t.g]), t.bucket, w, hash)|)
  }

  ghost predicate PoolState(sh: Shared, tasks: seq<Task>, ran: set<nat>, sets: seq<seq<set<int>>>, heavy: seq<nat>,
                            heavyOf: seq<int>, w: nat, hash: int -> u64)
    requires w > 0
  {
    && SharedShape(sh, |sets|, heavy, w)
    && forall i: nat :: i < |tasks| ==> TaskState(sh, tasks[i], i in ran, sets, heavyOf, w, hash)
  }

  /** The shared state after a light task; the group's sets are moved-from. */
  function AfterLight(sh: Shared, g: nat, n: nat, left: seq<set<int>>): Shared
    requires g < |sh.cells| && g < |sh.counts|
  {
    sh.(counts := sh.counts[g := n], cells := sh.cells[g := left])
  }

  function AfterHeavy(sh: Shared, hi: nat, b: nat, n: nat): Shared
    requires hi < |sh.hpartial| && b < |sh.hpartial[hi]|
  {
    var row: seq<nat> := sh.hpartial[hi][b := n];
    sh.(hpartial := sh.hpartial[hi := row])
  }

  lemma LightRan(sh: Shared, tasks: seq<Task>, ran: set<nat>, sets: seq<seq<set<int>>>, heavy: seq<nat>,
                 heavyOf: seq<int>, w: nat, hash: int -> u64, i: nat, n: nat, left: seq<set<int>>)
    requires w > 0 && |heavyOf| == |sets| && Routed(heavy, heavyOf, |sets|) && Listed(tasks, heavy, heavyOf, w)
    requires PoolState(sh, tasks, ran, sets, heavy, heavyOf, w, hash)
    requires i < |tasks| && tasks[i].bucket < 0 && n == |UnionAll(sets[tasks[i].g])|
    ensures PoolState(AfterLight(sh, tasks[i].g, n, left), tasks, ran + {i}, sets, heavy, heavyOf, w, hash)
  {
    var sh' := AfterLight(sh, tasks[i].g, n, left);
    forall j: nat | j < |tasks| ensures TaskState(sh', tasks[j], j in ran + {i}, sets, heavyOf, w, hash) {
      assert TaskState(sh, tasks[j], j in ran, sets, heavyOf, w, hash);
      if tasks[j].bucket < 0 && j != i {
        assert tasks[j].g != tasks[i].g by {
          assert i < j || j < i;
        }
      }
    }
  }

  lemma HeavyRan(sh: Shared, tasks: seq<Task>, ran: set<nat>, sets: seq<seq<set<int>>>, heavy: seq<nat>,
                 heavyOf: seq<int>, w: nat, hash: int -> u64, i: nat, n: nat)
    requires w > 0 && |heavyOf| == |sets| && Routed(heavy, heavyOf, |sets|) && Listed(tasks, heavy, heavyOf, w)
    requires PoolState(sh, tasks, ran, sets, heavy, heavyOf, w, hash)
    requires i < |tasks| && tasks[i].bucket >= 0
    requires n == |InBucket(UnionAll(sets[tasks[i].g]), tasks[i].bucket, w, hash)|
    ensures 0 <= heavyOf[tasks[i].g] < |sh.hpartial| && tasks[i].bucket < |sh.hpartial[heavyOf[tasks[i].g]]|
    ensures PoolState(AfterHeavy(sh, heavyOf[tasks[i].g], tasks[i].bucket, n), tasks, ran + {i}, sets, heavy,
      heavyOf, w, hash)
  {
    assert TaskState(sh, tasks[i], i in ran, sets, heavyOf, w, hash);
    var hi := heavyOf[tasks[i].g];
    var sh' := AfterHeavy(sh, hi, tasks[i].bucket, n);
    forall j: nat | j < |tasks| ensures TaskState(sh', tasks[j], j in ran + {i}, sets, heavyOf, w, hash) {
      assert TaskState(sh, tasks[j], j in ran, sets, heavyOf, w, hash);
      if tasks[j].bucket >= 0 && heavyOf[tasks[j].g] == hi {
        assert tasks[j].g == heavy[hi] == tasks[i].g;
      }
    }
  }

  /** One task: consumes a light group's sets, or unites one bucket of a heavy group. */
  method RunTask(sh: Shared, tasks: seq<Task>, ghost ran: set<nat>, sets: seq<seq<set<int>>>, heavy: seq<nat>,
                 heavyOf: seq<int>, bufs: Buffers, w: nat, hash: int -> u64, i: nat)
    returns (sh': Shared)
    requires w > 0 && |heavyOf| == |sets| && Routed(heavy, heavyOf, |sets|) && Listed(tasks, heavy, heavyOf, w)
    requires PoolState(sh, tasks, ran, sets, heavy, heavyOf, w, hash)
    requires i < |tasks| && i !in ran && HeavyScattered(bufs, HeavySets(sets, heavy), w, hash)
    ensures PoolState(sh', tasks, ran + {i}, sets, heavy, heavyOf, w, hash)
  {
    var t := tasks[i];
    assert TaskState(sh, t, false, sets, heavyOf, w, hash);
    if t.bucket < 0 {
      var n := UnionSize(sh.cells[t.g]);
      var left: seq<set<int>> := *;
      LightRan(sh, tasks, ran, sets, heavy, heavyOf, w, hash, i, n, left);
      sh' := AfterLight(sh, t.g, n, left);
    } else {
      var hi := heavyOf[t.g];
      assert TaskOk(t, heavyOf, w);
      assert AllScattered(bufs[hi], HeavySets(sets, heavy)[hi], w, hash);
      var n := Unite(bufs[hi], t.bucket, w, sets[t.g], hash);
      HeavyRan(sh, tasks, ran, sets, heavy, heavyOf, w, hash, i, n);
      sh' := AfterHeavy(sh, hi, t.bucket, n);
    }
  }

  /** The workers drain the union tasks, under every interleaving. */
  method RunTasks(sets: seq<seq<set<int>>>, heavy: seq<nat>, heavyOf: seq<int>, bufs: Buffers, w: nat, hash: int -> u64)
    returns (sh: Shared)
    requires w > 0 && Routed(heavy, heavyOf, |sets|) && HeavyScattered(bufs, HeavySets(sets, heavy), w, hash)
    ensures Finished(sh, sets, heavy, heavyOf, w, hash)
  {
    var tasks := ListTasks(heavy, heavyOf, w);
    sh := Shared(sets, seq(|sets|, _ => 0), seq(|heavy|, _ => seq(w, _ => 0)));
    PoolStart(sh, tasks, sets, heavy, heavyOf, w, hash);
    var pool := new WorkPool(|tasks|, w);
    while !pool.Finished()
      invariant pool.Valid() && fresh(pool) && pool.n == |tasks| && |pool.workers| == w
      invariant PoolState(sh, tasks, pool.ran, sets, heavy, heavyOf, w, hash)
      decreases pool.StepsLeft()
    {
      ghost var ran := pool.ran;
      var i := pool.Step();
      if i >= 0 {
        sh := RunTask(sh, tasks, ran, sets, heavy, heavyOf, bufs, w, hash, i);
      }
    }
    pool.AllRan();
    PoolDone(sh, tasks, pool.ran, sets, heavy, heavyOf, w, hash);
  }

  lemma PoolStart(sh: Shared, tasks: seq<Task>, sets: seq<seq<set<int>>>, heavy: seq<nat>, heavyOf: seq<int>, w: nat,
                  hash: int -> u64)
    requires w > 0 && Routed(heavy, heavyOf, |sets|) && Listed(tasks, heavy, heavyOf, w)
    requires sh.cells == sets && SharedShape(sh, |sets|, heavy, w)
    ensures PoolState(sh, tasks, {}, sets, heavy, heavyOf, w, hash)
  {
    forall i: nat | i < |tasks| ensures TaskState(sh, tasks[i], false, sets, heavyOf, w, hash) {
      assert TaskOk(tasks[i], heavyOf, w);
    }
  }

  /** Light groups are counted; heavy groups have the sizes of all their buckets. */
  ghost predicate Finished(sh: Shared, sets: seq<seq<set<int>>>, heavy: seq<nat>, heavyOf: seq<int>, w: nat,
                           hash: int -> u64)
    requires w > 0
  {
    && |sh.counts| == |heavyOf| == |sets| && |sh.hpartial| == |heavy|
    && (forall g: nat :: g < |sets| && heavyOf[g] < 0 ==> sh.counts[g] == |UnionAll(sets[g])|)
    && (forall hi :: 0 <= hi < |heavy| ==>
          heavy[hi] < |sets| && BucketSizes(sh.hpartial[hi], UnionAll(sets[heavy[hi]]), w, hash))
  }

  lemma PoolDone(sh: Shared, tasks: seq<Task>, ran: set<nat>, sets: seq<seq<set<int>>>, heavy: seq<nat>,
                 heavyOf: seq<int>, w: nat, hash: int -> u64)
    requires w > 0 && Routed(heavy, heavyOf, |sets|) && Listed(tasks, heavy, heavyOf, w)
    requires PoolState(sh, tasks, ran, sets, heavy, heavyOf, w, hash) && ran == Below(|tasks|)
    ensures Finished(sh, sets, heavy, heavyOf, w, hash)
  {
    forall g: nat | g < |sets| && heavyOf[g] < 0 ensures sh.counts[g] == |UnionAll(sets[g])| {
      assert Task(g, -1) in tasks;
      var i :| 0 <= i < |tasks| && tasks[i] == Task(g, -1);
      assert TaskState(sh, tasks[i], i in ran, sets, heavyOf, w, hash);
    }
    forall hi, b | 0 <= hi < |heavy| && 0 <= b < w
      ensures sh.hpartial[hi][b] == |InBucket(UnionAll(sets[heavy[hi]]), b, w, hash)|
    {
      assert Task(heavy[hi], b) in tasks;
      var i :| 0 <= i < |tasks| && tasks[i] == Task(heavy[hi], b);
      assert TaskState(sh, tasks[i], i in ran, sets, heavyOf, w, hash);
    }
  }

  /** The number of distinct values of every group: the routing, the worker count and the schedule do not show. */
  method PoolCounts(sets: seq<seq<set<int>>>, w: nat, hash: int -> u64) returns (counts: seq<nat>)
    requires w > 0
    ensures |counts| == |sets| && forall g :: 0 <= g < |sets| ==> counts[g] == |UnionAll(sets[g])|
  {
    var heavy, heavyOf := Route(sets, w);
    var hsets := seq(|heavy|, h requires 0 <= h < |heavy| => sets[heavy[h]]);
    assert hsets == HeavySets(sets, heavy);
    var bufs := RunScatter(hsets, w, hash);
    var sh := RunTasks(sets, heavy, heavyOf, bufs, w, hash);
    counts := sh.counts;
    for hi := 0 to |heavy|
      invariant |counts| == |sets|
      invariant forall g: nat :: g < |sets| && heavyOf[g] < hi ==> counts[g] == |UnionAll(sets[g])|
    {
      var total := AddUp(sh.hpartial[hi], w, UnionAll(sets[heavy[hi]]), hash);
      counts := counts[heavy[hi] := total];
    }
  }
}
