/** Filtering and projecting a table with workers that claim morsels. */
module ParallelExecutor {
  import opened DataTable
  import opened Seals
  import opened Seqs
  import opened WorkPool

  type Row<V> = seq<V>

  /** A three-valued condition. */
  datatype Truth = True | False | Null

  datatype Filter<!V> = NoFilter | Where(cond: Row<V> -> Truth)

  /** A row passes only if the condition is true: false and null both drop it. */
  predicate Keeps<V>(filter: Filter<V>, row: Row<V>) {
    match filter
    case NoFilter => true
    case Where(cond) => cond(row) == True
  }

  /** The projected row; without projections the row itself. */
  function Project<V>(projections: seq<Row<V> -> V>, row: Row<V>): Row<V> {
    if projections == [] then row else seq(|projections|, c requires 0 <= c < |projections| => projections[c](row))
  }

  /** What the query means: the projection of every row that passes, in table order. */
  function Output<V>(filter: Filter<V>, projections: seq<Row<V> -> V>, rows: seq<Row<V>>): seq<Row<V>> {
    if rows == [] then []
    else
      var rest := Output(filter, projections, Init(rows));
      if Keeps(filter, Last(rows)) then rest + [Project(projections, Last(rows))] else rest
  }

  lemma {:induction false} OutputConcat<V>(filter: Filter<V>, projections: seq<Row<V> -> V>, a: seq<Row<V>>,
                                           b: seq<Row<V>>)
    ensures Output(filter, projections, a + b) == Output(filter, projections, a) + Output(filter, projections, b)
  {
    if b == [] {
      assert a + b == a;
    } else {
      OutputConcat(filter, projections, a, Init(b));
      assert Init(a + b) == a + Init(b);
    }
  }

  /** The collected rows; each chunk is added under the lock. */
  class Collector<V> {
    var rows: seq<Row<V>>

    constructor ()
      ensures rows == []
    {
      rows := [];
    }

    method AddChunk(chunk: seq<Row<V>>)
      modifies this
      ensures rows == old(rows) + chunk
    {
      for i := 0 to |chunk|
        invariant rows == old(rows) + chunk[..i]
      {
        rows := rows + [chunk[i]];
      }
    }
  }

  /** The rows of a chunk that pass the filter. */
  method FilterChunk<V>(filter: Filter<V>, input: seq<Row<V>>) returns (filtered: seq<Row<V>>)
    ensures filtered == Output(filter, [], input)
  {
    match filter
    case NoFilter =>
      AllPass(input);
      filtered := input;
    case Where(cond) =>
      filtered := [];
      for i := 0 to |input|
        invariant filtered == Output(filter, [], input[..i])
      {
        assert Init(input[..i + 1]) == input[..i];
        if cond(input[i]) == True {
          filtered := filtered + [input[i]];
        }
      }
      assert input[..|input|] == input;
  }

  lemma {:induction false} AllPass<V>(rows: seq<Row<V>>)
    ensures Output(NoFilter, [], rows) == rows
  {
    if rows != [] {
      AllPass(Init(rows));
      assert rows == Init(rows) + [Last(rows)];
    }
  }

  function ProjectAll<V>(projections: seq<Row<V> -> V>, rows: seq<Row<V>>): seq<Row<V>> {
    seq(|rows|, i requires 0 <= i < |rows| => Project(projections, rows[i]))
  }

  /** Filtering and then projecting is the query. */
  lemma {:induction false} FilterThenProject<V>(filter: Filter<V>, projections: seq<Row<V> -> V>, rows: seq<Row<V>>)
    ensures ProjectAll(projections, Output(filter, [], rows)) == Output(filter, projections, rows)
  {
    if rows != [] {
      FilterThenProject(filter, projections, Init(rows));
    }
  }

  // ---- what is still to come ----

  /** The output of each morsel. */
  ghost function Outs<V>(filter: Filter<V>, projections: seq<Row<V> -> V>,
                         morsels: seq<seq<Row<V>>>): (r: seq<seq<Row<V>>>)
    ensures |r| == |morsels| && forall i :: 0 <= i < |r| ==> r[i] == Output(filter, projections, morsels[i])
  {
    seq(|morsels|, i requires 0 <= i < |morsels| => Output(filter, projections, morsels[i]))
  }

  /** What task `i` still has to add. */
  ghost function Rest<T>(outs: seq<seq<T>>, ran: set<nat>, i: nat): multiset<T>
    requires i < |outs|
  {
    if i in ran then multiset{} else multiset(outs[i])
  }

  /** The output of the tasks below `n` that have not run. */
  ghost function Pending<T>(outs: seq<seq<T>>, ran: set<nat>, n: nat): multiset<T>
    requires n <= |outs|
  {
    if n == 0 then multiset{} else Pending(outs, ran, n - 1) + Rest(outs, ran, n - 1)
  }

  lemma PendingStart<V>(filter: Filter<V>, projections: seq<Row<V> -> V>, morsels: seq<seq<Row<V>>>, n: nat)
    requires n <= |morsels|
    ensures Pending(Outs(filter, projections, morsels), {}, n)
         == multiset(Output(filter, projections, Flatten(morsels[..n])))
  {
    NothingYet(filter, projections, morsels);
    for i := 0 to n
      invariant Opens(filter, projections, morsels, i)
    {
      PendingNext(filter, projections, morsels, i);
    }
  }

  /** That, for the first `n` morsels. */
  ghost predicate Opens<V>(filter: Filter<V>, projections: seq<Row<V> -> V>, morsels: seq<seq<Row<V>>>, n: nat) {
    match n <= |morsels|
    case false => false
    case true =>
      Pending(Outs(filter, projections, morsels), {}, n)
      == multiset(Output(filter, projections, Flatten(morsels[..n])))
  }

  lemma NothingYet<V>(filter: Filter<V>, projections: seq<Row<V> -> V>, morsels: seq<seq<Row<V>>>)
    ensures Opens(filter, projections, morsels, 0)
  {
  }

  lemma PendingNext<V>(filter: Filter<V>, projections: seq<Row<V> -> V>, morsels: seq<seq<Row<V>>>, i: nat)
    requires i < |morsels| && Opens(filter, projections, morsels, i)
    ensures Opens(filter, projections, morsels, i + 1)
  {
    FlattenStep(morsels, i);
    OutputStep(filter, projections, Flatten(morsels[..i]), morsels[i]);
  }

  lemma OutputStep<V>(filter: Filter<V>, projections: seq<Row<V> -> V>, a: seq<Row<V>>, b: seq<Row<V>>)
    ensures multiset(Output(filter, projections, a + b))
         == multiset(Output(filter, projections, a)) + multiset(Output(filter, projections, b))
  {
    OutputConcat(filter, projections, a, b);
    MultisetConcat(Output(filter, projections, a), Output(filter, projections, b));
  }

  lemma {:induction false} PendingSame<T>(outs: seq<seq<T>>, ran: set<nat>, i: nat, n: nat)
    requires n <= |outs| && n <= i
    ensures Pending(outs, ran + {i}, n) == Pending(outs, ran, n)
  {
    if n > 0 {
      PendingSame(outs, ran, i, n - 1);
      assert Rest(outs, ran + {i}, n - 1) == Rest(outs, ran, n - 1);
    }
  }

  lemma {:induction false} PendingRan<T>(outs: seq<seq<T>>, ran: set<nat>, i: nat, n: nat)
    requires i < n <= |outs| && i !in ran
    ensures Pending(outs, ran, n) == Pending(outs, ran + {i}, n) + multiset(outs[i])
  {
    var m: nat := n - 1;
    RestRan(outs, ran, i, m);
    if i == m {
      PendingSame(outs, ran, i, m);
    } else {
      PendingRan(outs, ran, i, m);
    }
    AddRest(Pending(outs, ran, m), Rest(outs, ran, m), Pending(outs, ran + {i}, m), Rest(outs, ran + {i}, m),
            multiset(outs[i]));
  }

  /** What is missing from one of the two parts is missing from their sum. */
  lemma AddRest<T>(p: multiset<T>, r: multiset<T>, p': multiset<T>, r': multiset<T>, mine: multiset<T>)
    requires (p == p' && r == mine && r' == multiset{}) || (p == p' + mine && r' == r)
    ensures p + r == p' + r' + mine
  {
  }

  lemma RestRan<T>(outs: seq<seq<T>>, ran: set<nat>, i: nat, j: nat)
    requires i < |outs| && j < |outs| && i !in ran
    ensures if j == i then Rest(outs, ran, j) == multiset(outs[i]) && Rest(outs, ran + {i}, j) == multiset{}
            else Rest(outs, ran + {i}, j) == Rest(outs, ran, j)
  {
  }

  lemma {:induction false} PendingEnd<T>(outs: seq<seq<T>>, ran: set<nat>, n: nat)
    requires n <= |outs| && forall i: nat :: i < n ==> i in ran
    ensures Pending(outs, ran, n) == multiset{}
  {
    if n > 0 {
      PendingEnd(outs, ran, n - 1);
    }
  }

  /** What has been collected and what is still to come make up the whole output. */
  ghost predicate Balanced<V>(rows: seq<Row<V>>, pending: multiset<Row<V>>, all: multiset<Row<V>>) {
    multiset(rows) + pending == all
  }

  lemma BalancedStep<V>(rows: seq<Row<V>>, out: seq<Row<V>>, before: multiset<Row<V>>, after: multiset<Row<V>>,
                        all: multiset<Row<V>>)
    requires Balanced(rows, before, all) && before == after + multiset(out)
    ensures Balanced(rows + out, after, all)
  {
    MultisetConcat(rows, out);
    assert multiset(rows) + multiset(out) + after == multiset(rows) + (after + multiset(out));
  }

  /** The state of the scan: what the morsels still to run will add completes the output. */
  ghost predicate Underway<V>(rows: seq<Row<V>>, filter: Filter<V>, projections: seq<Row<V> -> V>,
                              morsels: seq<seq<Row<V>>>, ran: set<nat>) {
    forall seal: Seal :: UnderwayOpen(seal, rows, filter, projections, morsels, ran)
  }

  ghost predicate UnderwayOpen<V>(seal: Seal, rows: seq<Row<V>>, filter: Filter<V>, projections: seq<Row<V> -> V>,
                                  morsels: seq<seq<Row<V>>>, ran: set<nat>) {
    Balanced(rows, Pending(Outs(filter, projections, morsels), ran, |morsels|),
      multiset(Output(filter, projections, Flatten(morsels))))
  }

  lemma CloseUnderway<V>(rows: seq<Row<V>>, filter: Filter<V>, projections: seq<Row<V> -> V>, morsels: seq<seq<Row<V>>>,
                         ran: set<nat>)
    requires UnderwayOpen(Seal, rows, filter, projections, morsels, ran)
    ensures Underway(rows, filter, projections, morsels, ran)
  {
    forall seal: Seal ensures UnderwayOpen(seal, rows, filter, projections, morsels, ran) {
      assert seal == Seal;
    }
  }

  lemma UnderwayStart<V>(filter: Filter<V>, projections: seq<Row<V> -> V>, morsels: seq<seq<Row<V>>>)
    ensures Underway([], filter, projections, morsels, {})
  {
    PendingStart(filter, projections, morsels, |morsels|);
    assert morsels[..|morsels|] == morsels;
    CloseUnderway([], filter, projections, morsels, {});
  }

  lemma UnderwayStep<V>(rows: seq<Row<V>>, filter: Filter<V>, projections: seq<Row<V> -> V>, morsels: seq<seq<Row<V>>>,
                        ran: set<nat>, i: nat)
    requires Underway(rows, filter, projections, morsels, ran) && i < |morsels| && i !in ran
    ensures Underway(rows + Output(filter, projections, morsels[i]), filter, projections, morsels, ran + {i})
  {
    assert UnderwayOpen(Seal, rows, filter, projections, morsels, ran);
    PendingRan(Outs(filter, projections, morsels), ran, i, |morsels|);
    BalancedStep(rows, Output(filter, projections, morsels[i]),
      Pending(Outs(filter, projections, morsels), ran, |morsels|),
                 Pending(Outs(filter, projections, morsels), ran + {i}, |morsels|),
                 multiset(Output(filter, projections, Flatten(morsels))));
    CloseUnderway(rows + Output(filter, projections, morsels[i]), filter, projections, morsels, ran + {i});
  }

  lemma UnderwayEnd<V>(rows: seq<Row<V>>, filter: Filter<V>, projections: seq<Row<V> -> V>, morsels: seq<seq<Row<V>>>,
                       ran: set<nat>)
    requires Underway(rows, filter, projections, morsels, ran) && ran == Below(|morsels|)
    ensures multiset(rows) == multiset(Output(filter, projections, Flatten(morsels)))
  {
    assert UnderwayOpen(Seal, rows, filter, projections, morsels, ran);
    PendingEnd(Outs(filter, projections, morsels), ran, |morsels|);
  }

  /** One claimed morsel: read, filter, project, collect. */
  method RunMorsel<V>(table: DataTable<Row<V>>, total: nat, filter: Filter<V>, projections: seq<Row<V> -> V>,
                      collector: Collector<V>, morsel: nat)
    requires table.Valid() && total == |Morsels(table.parts)| && morsel < total
    modifies collector
    ensures collector.rows == old(collector.rows) + Output(filter, projections, Morsels(table.parts)[morsel])
  {
    var more, input := table.ReadMorsel(morsel, total);
    var filtered := FilterChunk(filter, input);
    FilterThenProject(filter, projections, input);
    if |filtered| == 0 {
      return;
    }
    collector.AddChunk(ProjectAll(projections, filtered));
  }

  /** One step of whichever worker the scheduler picks. */
  method WorkerStep<V>(pool: WorkPool, table: DataTable<Row<V>>, total: nat, filter: Filter<V>,
                       projections: seq<Row<V> -> V>, collector: Collector<V>)
    requires table.Valid() && total == pool.n == |Morsels(table.parts)|
    requires pool.Valid() && !pool.Finished()
    requires Underway(collector.rows, filter, projections, Morsels(table.parts), pool.ran)
    modifies pool, collector
    ensures pool.Valid() && |pool.workers| == old(|pool.workers|)
    ensures Underway(collector.rows, filter, projections, Morsels(table.parts), pool.ran)
    ensures 0 <= pool.StepsLeft() < old(pool.StepsLeft())
  {
    ghost var ran := pool.ran;
    var i := pool.Step();
    if i >= 0 {
      UnderwayStep(collector.rows, filter, projections, Morsels(table.parts), ran, i);
      RunMorsel(table, total, filter, projections, collector, i);
    }
  }

  /**
   * Under every interleaving of the workers the rows collected are, as a multiset,
   * the projections of the rows that pass the filter.
   */
  method ParallelScanFilter<V>(table: DataTable<Row<V>>, filter: Filter<V>, projections: seq<Row<V> -> V>,
                               numThreads: nat, poolThreads: nat)
    returns (rows: seq<Row<V>>)
    requires table.Valid() && poolThreads > 0
    ensures multiset(rows) == multiset(Output(filter, projections, table.Contents()))
  {
    var threads := if numThreads == 0 then poolThreads else numThreads;
    if |table.rowGroups| <= 1 {
      threads := 1;
    }
    var collector := new Collector<V>();
    var total := table.InitParallelScan();
    ghost var morsels := Morsels(table.parts);
    UnderwayStart(filter, projections, morsels);
    var pool := new WorkPool(total, threads);
    while !pool.Finished()
      invariant pool.Valid() && fresh(pool) && fresh(collector) && pool.n == total && |pool.workers| == threads
      invariant Underway(collector.rows, filter, projections, morsels, pool.ran)
      decreases pool.StepsLeft()
    {
      WorkerStep(pool, table, total, filter, projections, collector);
    }
    pool.AllRan();
    UnderwayEnd(collector.rows, filter, projections, morsels, pool.ran);
    MorselsFlatten(table.parts);
    rows := collector.rows;
  }
}
