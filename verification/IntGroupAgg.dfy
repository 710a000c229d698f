/** GROUP BY a non-negative int key with COUNT(*), SUM and COUNT(DISTINCT), merged over threads. */
module IntGroupAgg {
  import opened Bits
  import opened DistinctPool
  import opened DistinctUnion
  import opened GroupBy
  import opened Masks
  import opened Seqs

  const UNASSIGNED: nat := 0xFFFF_FFFF
  const INT32_LIMIT: nat := 0x8000_0000

  datatype Kind = CountStar | Sum | CountDistinct

  // ---- the declarative definition ----

  /** The distinct values of aggregate `a` in group `k`. */
  ghost function ValuesOf(log: seq<Upd<int>>, k: int, a: nat): set<int> {
    if log == [] then {}
    else
      var u := Last(log);
      ValuesOf(Init(log), k, a) + (if u.key == k && Present(u, a) then {u.vals[a]} else {})
  }

  lemma {:induction false} ValuesOfIs(log: seq<Upd<int>>, k: int, a: nat, v: int)
    ensures v in ValuesOf(log, k, a) <==>
      exists i :: 0 <= i < |log| && log[i].key == k && Present(log[i], a) && log[i].vals[a] == v
  {
    if log != [] {
      ValuesOfIs(Init(log), k, a, v);
      assert forall i :: 0 <= i < |Init(log)| ==> log[i] == Init(log)[i];
      assert log[|log| - 1] == Last(log);
    }
  }

  /** One group's accumulator for one aggregate: which parts are used depends on the kind. */
  datatype Agg = Agg(count: int, sum: int, vals: set<int>)

  const EMPTY: Agg := Agg(0, 0, {})

  /** What the accumulator of aggregate `a` must hold for group `k`. */
  ghost function Want(kind: Kind, log: seq<Upd<int>>, k: int, a: nat): Agg {
    match kind
    case CountStar => Agg(CountOf(log, k), 0, {})
    case Sum => Agg(CntOf(log, k, a), SumOf(log, k, a), {})
    case CountDistinct => Agg(0, 0, ValuesOf(log, k, a))
  }

  /** One more row of the group. */
  function Add(kind: Kind, g: Agg, v: int, present: bool): Agg {
    match kind
    case CountStar => g.(count := g.count + 1)
    case Sum => if present then g.(count := g.count + 1, sum := g.sum + v) else g
    case CountDistinct => if present then g.(vals := g.vals + {v}) else g
  }

  lemma WantSnoc(kind: Kind, log: seq<Upd<int>>, u: Upd<int>, k: int, a: nat)
    requires a < |u.vals| == |u.valid|
    ensures Want(kind, log + [u], k, a)
         == if u.key == k then Add(kind, Want(kind, log, k, a), u.vals[a], u.valid[a]) else Want(kind, log, k, a)
  {
    assert (log + [u])[..|log|] == log && Init(log + [u]) == log;
  }

  function Join(g: Agg, h: Agg): Agg {
    Agg(g.count + h.count, g.sum + h.sum, g.vals + h.vals)
  }

  lemma {:induction false} WantConcat(kind: Kind, x: seq<Upd<int>>, y: seq<Upd<int>>, k: int, a: nat)
    ensures Want(kind, x + y, k, a) == Join(Want(kind, x, k, a), Want(kind, y, k, a))
  {
    if y == [] {
      assert x + y == x;
      JoinEmpty(Want(kind, x, k, a));
    } else {
      WantConcat(kind, x, Init(y), k, a);
      SplitLast(x, y);
      WantOneMore(kind, x + Init(y), Last(y), k, a);
      WantOneMore(kind, Init(y), Last(y), k, a);
      JoinAssoc(Want(kind, x, k, a), Want(kind, Init(y), k, a), Extra(kind, Last(y), k, a));
    }
  }

  lemma JoinEmpty(g: Agg)
    ensures Join(g, EMPTY) == g && Join(EMPTY, g) == g
  {
  }

  lemma JoinAssoc(g: Agg, h: Agg, i: Agg)
    ensures Join(Join(g, h), i) == Join(g, Join(h, i))
  {
  }

  lemma SplitLast<T>(x: seq<T>, y: seq<T>)
    requires y != []
    ensures x + y == (x + Init(y)) + [Last(y)] && y == Init(y) + [Last(y)]
  {
  }

  /** What one more row adds, whatever its width. */
  ghost function Extra(kind: Kind, u: Upd<int>, k: int, a: nat): Agg {
    if u.key != k then EMPTY
    else match kind
      case CountStar => Agg(1, 0, {})
      case Sum => if Present(u, a) then Agg(1, u.vals[a], {}) else EMPTY
      case CountDistinct => if Present(u, a) then Agg(0, 0, {u.vals[a]}) else EMPTY
  }

  lemma WantOneMore(kind: Kind, log: seq<Upd<int>>, u: Upd<int>, k: int, a: nat)
    ensures Want(kind, log + [u], k, a) == Join(Want(kind, log, k, a), Extra(kind, u, k, a))
  {
    assert (log + [u])[..|log|] == log && Init(log + [u]) == log;
  }

  /** The group has a row. */
  ghost predicate HasKey(log: seq<Upd<int>>, k: int) {
    exists i :: 0 <= i < |log| && log[i].key == k
  }

  lemma HasKeyConcat(x: seq<Upd<int>>, y: seq<Upd<int>>, k: int)
    ensures HasKey(x + y, k) <==> HasKey(x, k) || HasKey(y, k)
  {
    if HasKey(x, k) {
      var i :| 0 <= i < |x| && x[i].key == k;
      assert (x + y)[i].key == k;
    }
    if HasKey(y, k) {
      var i :| 0 <= i < |y| && y[i].key == k;
      assert (x + y)[|x| + i].key == k;
    }
  }

  lemma {:induction false} WantNothing(kind: Kind, log: seq<Upd<int>>, k: int, a: nat)
    requires !HasKey(log, k)
    ensures Want(kind, log, k, a) == EMPTY
  {
    if log != [] {
      assert log == Init(log) + [Last(log)];
      HasKeyConcat(Init(log), [Last(log)], k);
      assert [Last(log)][0].key == Last(log).key;
      WantNothing(kind, Init(log), k, a);
      assert log[..|log| - 1] == Init(log);
    }
  }

  // ---- rows ----

  /** An aggregate's input column. */
  datatype Column = Column(vals: seq<int>, valid: Mask)

  /** Columns that are read cover the row group. */
  predicate ColumnsOk(kinds: seq<Kind>, cols: seq<Column>, n: nat) {
    && |cols| == |kinds|
    && forall a :: 0 <= a < |kinds| && !kinds[a].CountStar? ==> n <= |cols[a].vals| && Covers(cols[a].valid, n)
  }

  function ValueAt(kind: Kind, c: Column, r: nat): int {
    if kind.CountStar? || r >= |c.vals| then 0 else c.vals[r]
  }

  predicate ValidAt(kind: Kind, c: Column, r: nat) {
    !kind.CountStar? && Passes(c.valid, r)
  }

  /** Row `r` as an update. */
  function RowUpd(kinds: seq<Kind>, cols: seq<Column>, k: int, r: nat): (u: Upd<int>)
    requires |cols| == |kinds|
    ensures u.key == k && |u.vals| == |u.valid| == |kinds|
  {
    Upd(k, seq(|kinds|, a requires 0 <= a < |kinds| => ValueAt(kinds[a], cols[a], r)),
        seq(|kinds|, a requires 0 <= a < |kinds| => ValidAt(kinds[a], cols[a], r)))
  }

  /** The rows of a row group with a non-null, non-negative key. */
  function KeptRows(kinds: seq<Kind>, group: seq<int>, gv: Mask, cols: seq<Column>, n: nat): seq<Upd<int>>
    requires n <= |group| && |cols| == |kinds|
  {
    if n == 0 then []
    else
      var rest := KeptRows(kinds, group, gv, cols, n - 1);
      if Passes(gv, n - 1) && group[n - 1] >= 0 then rest + [RowUpd(kinds, cols, group[n - 1], n - 1)] else rest
  }

  // ---- one thread ----

  /** The accumulators, aggregate by aggregate and slot by slot. */
  datatype Slots = Slots(cnt: seq<seq<int>>, sum: seq<seq<int>>, dset: seq<seq<set<int>>>) {
    predicate Shape(na: nat, n: nat) {
      && |cnt| == |sum| == |dset| == na
      && forall a :: 0 <= a < na ==> |cnt[a]| == |sum[a]| == |dset[a]| == n
    }

    function At(a: nat, slot: nat): Agg
      requires a < |cnt| && a < |sum| && a < |dset|
      requires slot < |cnt[a]| && slot < |sum[a]| && slot < |dset[a]|
    {
      Agg(cnt[a][slot], sum[a][slot], dset[a][slot])
    }
  }

  /** A zeroed accumulator for a new slot of every aggregate. */
  function Pushed(s: Slots, na: nat, n: nat): (r: Slots)
    requires s.Shape(na, n)
    ensures r.Shape(na, n + 1)
    ensures forall a, i :: 0 <= a < na && 0 <= i < n ==> r.At(a, i) == s.At(a, i)
    ensures forall a :: 0 <= a < na ==> r.At(a, n) == EMPTY
  {
    Slots(seq(na, a requires 0 <= a < na => s.cnt[a] + [0]),
          seq(na, a requires 0 <= a < na => s.sum[a] + [0]),
          seq(na, a requires 0 <= a < na => s.dset[a] + [{}]))
  }

  /** One accumulator updated for a row: the branch the aggregate's kind takes. */
  function Bumped(s: Slots, na: nat, n: nat, kind: Kind, a: nat, slot: nat, v: int, present: bool): (r: Slots)
    requires s.Shape(na, n) && a < na && slot < n
    ensures r.Shape(na, n) && r.At(a, slot) == Add(kind, s.At(a, slot), v, present)
    ensures forall b, i :: 0 <= b < na && 0 <= i < n && (b != a || i != slot) ==> r.At(b, i) == s.At(b, i)
  {
    match kind
    case CountStar => s.(cnt := s.cnt[a := s.cnt[a][slot := s.cnt[a][slot] + 1]])
    case Sum =>
      if present then
        s.(sum := s.sum[a := s.sum[a][slot := s.sum[a][slot] + v]],
           cnt := s.cnt[a := s.cnt[a][slot := s.cnt[a][slot] + 1]])
      else s
    case CountDistinct =>
      if present then s.(dset := s.dset[a := s.dset[a][slot := s.dset[a][slot] + {v}]]) else s
  }

  /** Each region has one slot, and the slot index finds it. */
  ghost predicate Indexed(slotOf: seq<nat>, regions: seq<int>) {
    && (forall i :: 0 <= i < |regions| ==> 0 <= regions[i] < |slotOf| && slotOf[regions[i]] == i)
    && (forall k :: 0 <= k < |slotOf| && slotOf[k] != UNASSIGNED ==> slotOf[k] < |regions| && regions[slotOf[k]] == k)
  }

  /** The accumulators hold what the log asks for. */
  ghost predicate Holds(s: Slots, regions: seq<int>, kinds: seq<Kind>, log: seq<Upd<int>>) {
    && s.Shape(|kinds|, |regions|)
    && (forall k :: k in regions <==> HasKey(log, k))
    && forall a, i :: 0 <= a < |kinds| && 0 <= i < |regions| ==> s.At(a, i) == Want(kinds[a], log, regions[i], a)
  }

  /** Distinct numbers below `n` are at most `n`. */
  lemma {:induction false} DistinctBelow(s: seq<int>, n: nat)
    requires forall i :: 0 <= i < |s| ==> 0 <= s[i] < n
    requires forall i, j :: 0 <= i < j < |s| ==> s[i] != s[j]
    ensures |s| <= n
  {
    DistinctElems(s);
    IntsBelowSize(n);
    SubsetSize(Elems(s), IntsBelow(n));
  }

  ghost function IntsBelow(n: nat): (r: set<int>)
    ensures forall x :: x in r <==> 0 <= x < n
  {
    if n == 0 then {} else IntsBelow(n - 1) + {n - 1}
  }

  lemma {:induction false} IntsBelowSize(n: nat)
    ensures |IntsBelow(n)| == n
  {
    if n > 0 {
      IntsBelowSize(n - 1);
    }
  }

  lemma {:induction false} DistinctElems<T>(s: seq<T>)
    requires forall i, j :: 0 <= i < j < |s| ==> s[i] != s[j]
    ensures |Elems(s)| == |s|
  {
    if s == [] {
      assert Elems(s) == {};
    } else {
      DistinctElems(Init(s));
      assert Elems(s) == Elems(Init(s)) + {Last(s)};
      assert Last(s) !in Elems(Init(s));
    }
  }

  lemma DistinctRegions(slotOf: seq<nat>, regions: seq<int>)
    requires Indexed(slotOf, regions)
    ensures forall i, j :: 0 <= i < j < |regions| ==> regions[i] != regions[j]
  {
    forall i, j | 0 <= i < j < |regions| ensures regions[i] != regions[j] {
      assert slotOf[regions[i]] == i && slotOf[regions[j]] == j;
    }
  }

  lemma FewRegions(slotOf: seq<nat>, regions: seq<int>)
    requires Indexed(slotOf, regions) && |slotOf| <= INT32_LIMIT
    ensures |regions| <= INT32_LIMIT
  {
    DistinctRegions(slotOf, regions);
    DistinctBelow(regions, |slotOf|);
  }

  class IntGroupThread {
    const kinds: seq<Kind>
    var slotOf: seq<nat>                // group key -> slot, or UNASSIGNED
    var regions: seq<int>               // slot -> group key
    var slots: Slots
    ghost var log: seq<Upd<int>>

    ghost predicate Valid()
      reads this
    {
      && |slotOf| <= INT32_LIMIT
      && Indexed(slotOf, regions)
      && Holds(slots, regions, kinds, log)
    }

    constructor (kinds: seq<Kind>)
      ensures Valid() && log == [] && this.kinds == kinds
    {
      this.kinds, slotOf, regions, log := kinds, [], [], [];
      slots := Slots(seq(|kinds|, _ => []), seq(|kinds|, _ => []), seq(|kinds|, _ => []));
    }

    /** The slot of a key, assigned on first sight. */
    method SlotFor(region: int) returns (slot: nat)
      requires |slotOf| <= INT32_LIMIT && Indexed(slotOf, regions) && slots.Shape(|kinds|, |regions|)
      requires 0 <= region < INT32_LIMIT
      modifies this`slotOf, this`regions, this`slots
      ensures |slotOf| <= INT32_LIMIT && Indexed(slotOf, regions) && slots.Shape(|kinds|, |regions|)
      ensures slot < |regions| && regions[slot] == region
      ensures regions == if region in old(regions) then old(regions) else old(regions) + [region]
      ensures slots == if region in old(regions) then old(slots) else Pushed(old(slots), |kinds|, |old(regions)|)
    {
      if region >= |slotOf| {
        slotOf := slotOf + seq(region + 1 - |slotOf|, _ => UNASSIGNED);
      }
      slot := slotOf[region];
      if slot == UNASSIGNED {
        FewRegions(slotOf, regions);
        slot := |regions|;
        slots := Pushed(slots, |kinds|, |regions|);
        regions := regions + [region];
        slotOf := slotOf[region := slot];
      }
    }

    /** Adds one row to its group's accumulators. */
    method AddRow(region: int, cols: seq<Column>, r: nat)
      requires Valid() && 0 <= region < INT32_LIMIT && |cols| == |kinds|
      modifies this
      ensures Valid() && log == old(log) + [RowUpd(kinds, cols, region, r)]
    {
      ghost var u := RowUpd(kinds, cols, region, r);
      var slot := SlotFor(region);
      Starts(old(slots), old(regions), slots, regions, kinds, log, u, slot);
      var s := slots;
      for a := 0 to |kinds|
        invariant Partly(s, regions, kinds, log, u, slot, a)
        modifies {}
      {
        PartlyStep(s, regions, kinds, log, u, slot, a);
        s := Bumped(s, |kinds|, |regions|, kinds[a], a, slot,
                    ValueAt(kinds[a], cols[a], r), ValidAt(kinds[a], cols[a], r));
      }
      DistinctRegions(slotOf, regions);
      AllAdded(s, regions, kinds, log, u, slot);
      slots, log := s, log + [u];
    }

    /** Ingests a row group. */
    method ConsumeRG(group: seq<int>, gv: Mask, cols: seq<Column>)
      requires Valid() && Covers(gv, |group|) && ColumnsOk(kinds, cols, |group|)
      requires forall r :: 0 <= r < |group| ==> group[r] < INT32_LIMIT
      modifies this
      ensures Valid() && log == old(log) + KeptRows(kinds, group, gv, cols, |group|)
    {
      ghost var before := log;
      assert before == before + [];
      for r := 0 to |group|
        invariant Valid() && log == before + KeptRows(kinds, group, gv, cols, r)
      {
        if Passes(gv, r) && group[r] >= 0 {
          AddRow(group[r], cols, r);
          assert before + KeptRows(kinds, group, gv, cols, r) + [RowUpd(kinds, cols, group[r], r)]
              == before + KeptRows(kinds, group, gv, cols, r + 1);
        }
      }
    }
  }

  /** The row has been added to the first `n` aggregates of its slot. */
  ghost predicate Partly(s: Slots, regions: seq<int>, kinds: seq<Kind>, log: seq<Upd<int>>, u: Upd<int>, slot: nat,
                         n: nat) {
    && s.Shape(|kinds|, |regions|) && slot < |regions| && |u.vals| == |u.valid| == |kinds|
    && forall a, i :: 0 <= a < |kinds| && 0 <= i < |regions| ==>
        s.At(a, i) == Want(kinds[a], if i == slot && a < n then log + [u] else log, regions[i], a)
  }

  lemma NewSlot(s: Slots, regions: seq<int>, kinds: seq<Kind>, log: seq<Upd<int>>, region: int)
    requires Holds(s, regions, kinds, log) && region !in regions
    ensures var s' := Pushed(s, |kinds|, |regions|);
      forall a, i :: 0 <= a < |kinds| && 0 <= i < |regions| + 1 ==>
        s'.At(a, i) == Want(kinds[a], log, (regions + [region])[i], a)
  {
    forall a | 0 <= a < |kinds| ensures Want(kinds[a], log, region, a) == EMPTY {
      WantNothing(kinds[a], log, region, a);
    }
  }

  /** Before the first aggregate: the old accumulators, and a zeroed one if the key is new. */
  lemma Starts(s: Slots, regions: seq<int>, s': Slots, regions': seq<int>, kinds: seq<Kind>, log: seq<Upd<int>>,
               u: Upd<int>, slot: nat)
    requires Holds(s, regions, kinds, log) && |u.vals| == |u.valid| == |kinds|
    requires slot < |regions'| && regions'[slot] == u.key && s'.Shape(|kinds|, |regions'|)
    requires regions' == if u.key in regions then regions else regions + [u.key]
    requires s' == if u.key in regions then s else Pushed(s, |kinds|, |regions|)
    ensures Partly(s', regions', kinds, log, u, slot, 0)
    ensures forall k :: k in regions' <==> HasKey(log, k) || k == u.key
  {
    if u.key !in regions {
      NewSlot(s, regions, kinds, log, u.key);
    }
  }

  lemma PartlyStep(s: Slots, regions: seq<int>, kinds: seq<Kind>, log: seq<Upd<int>>, u: Upd<int>, slot: nat, a: nat)
    requires Partly(s, regions, kinds, log, u, slot, a) && a < |kinds| && u.key == regions[slot]
    ensures Partly(Bumped(s, |kinds|, |regions|, kinds[a], a, slot, u.vals[a], u.valid[a]),
                   regions, kinds, log, u, slot, a + 1)
  {
    WantSnoc(kinds[a], log, u, regions[slot], a);
  }

  lemma AllAdded(s: Slots, regions: seq<int>, kinds: seq<Kind>, log: seq<Upd<int>>, u: Upd<int>, slot: nat)
    requires Partly(s, regions, kinds, log, u, slot, |kinds|) && u.key == regions[slot]
    requires forall i, j :: 0 <= i < j < |regions| ==> regions[i] != regions[j]
    requires forall k :: k in regions <==> HasKey(log, k) || k == u.key
    ensures Holds(s, regions, kinds, log + [u])
  {
    forall k ensures k in regions <==> HasKey(log + [u], k) {
      HasKeyConcat(log, [u], k);
      assert HasKey([u], k) <==> u.key == k by {
        assert [u][0] == u;
      }
    }
    forall a, i | 0 <= a < |kinds| && 0 <= i < |regions|
      ensures s.At(a, i) == Want(kinds[a], log + [u], regions[i], a)
    {
      WantSnoc(kinds[a], log, u, regions[i], a);
      assert i != slot ==> regions[i] != regions[slot] by {
        assert i < slot || slot < i || i == slot;
      }
    }
  }

  // ---- merging the threads ----

  datatype AggVal = AggVal(sum: int, count: int)

  datatype Group = Group(key: int, aggs: seq<AggVal>)

  /** The finished value of one aggregate of one group. */
  ghost predicate IsAggregate(v: AggVal, kind: Kind, log: seq<Upd<int>>, k: int, a: nat) {
    match kind
    case CountStar => v == AggVal(0, CountOf(log, k))
    case Sum => v == AggVal(SumOf(log, k, a), CntOf(log, k, a))
    case CountDistinct => v == AggVal(0, |ValuesOf(log, k, a)|)
  }

  /** One group per key that occurs, with every aggregate exact. */
  ghost predicate ListsGroups(out: seq<Group>, kinds: seq<Kind>, log: seq<Upd<int>>) {
    && (forall i, j :: 0 <= i < j < |out| ==> out[i].key != out[j].key)
    && (forall k :: HasKey(log, k) <==> exists i :: 0 <= i < |out| && out[i].key == k)
    && (forall i :: 0 <= i < |out| ==> |out[i].aggs| == |kinds|)
    && (forall i, a :: 0 <= i < |out| && 0 <= a < |kinds| ==>
          IsAggregate(out[i].aggs[a], kinds[a], log, out[i].key, a))
  }

  /** Thread `th` holds exactly the rows of `log`. */
  ghost predicate ThreadHolds(th: IntGroupThread, kinds: seq<Kind>, log: seq<Upd<int>>)
    reads th
  {
    th.Valid() && th.kinds == kinds && th.log == log
  }

  /** The regions seen so far, in order of first sight, and where each is. */
  ghost predicate RegionIndex(ridx: map<int, nat>, regions: seq<int>, log: seq<Upd<int>>) {
    && (forall k :: k in ridx <==> HasKey(log, k))
    && (forall k :: k in ridx ==> ridx[k] < |regions| && regions[ridx[k]] == k)
    && (forall g :: 0 <= g < |regions| ==> regions[g] in ridx && ridx[regions[g]] == g)
  }

  /** Adds one thread's regions to the index. */
  method IndexThread(ridx: map<int, nat>, regions: seq<int>, th: IntGroupThread, ghost kinds: seq<Kind>,
                     ghost base: seq<Upd<int>>, ghost more: seq<Upd<int>>)
    returns (ridx': map<int, nat>, regions': seq<int>)
    requires ThreadHolds(th, kinds, more) && RegionIndex(ridx, regions, base)
    ensures RegionIndex(ridx', regions', base + more)
  {
    ridx', regions' := ridx, regions;
    for slot := 0 to |th.regions|
      invariant forall k :: k in ridx' <==> HasKey(base, k) || k in th.regions[..slot]
      invariant forall k :: k in ridx' ==> ridx'[k] < |regions'| && regions'[ridx'[k]] == k
      invariant forall g :: 0 <= g < |regions'| ==> regions'[g] in ridx' && ridx'[regions'[g]] == g
    {
      var reg := th.regions[slot];
      assert th.regions[..slot + 1] == th.regions[..slot] + [reg];
      if reg !in ridx' {
        ridx', regions' := ridx'[reg := |regions'|], regions' + [reg];
      }
    }
    assert th.regions[..|th.regions|] == th.regions;
    forall k ensures k in ridx' <==> HasKey(base + more, k) {
      HasKeyConcat(base, more, k);
    }
  }

  method IndexRegions(threads: seq<IntGroupThread>, ghost kinds: seq<Kind>, ghost logs: seq<seq<Upd<int>>>)
    returns (ridx: map<int, nat>, regions: seq<int>)
    requires |threads| == |logs| && forall t :: 0 <= t < |threads| ==> ThreadHolds(threads[t], kinds, logs[t])
    ensures RegionIndex(ridx, regions, Flatten(logs))
  {
    ridx, regions := map[], [];
    for t := 0 to |threads|
      invariant RegionIndex(ridx, regions, Flatten(logs[..t]))
    {
      ridx, regions := IndexThread(ridx, regions, threads[t], kinds, Flatten(logs[..t]), logs[t]);
      assert Init(logs[..t + 1]) == logs[..t];
    }
    assert logs[..|logs|] == logs;
  }

  // ---- COUNT(*) and SUM: one pass over all slots ----

  function Simple(g: Agg): AggVal {
    AggVal(g.sum, g.count)
  }

  /** The simple aggregates of every group, over the rows that count for it. */
  ghost predicate SimpleState(vals: seq<seq<AggVal>>, regions: seq<int>, kinds: seq<Kind>, base: seq<Upd<int>>,
                              more: seq<Upd<int>>, added: seq<int>) {
    && |vals| == |regions|
    && (forall g :: 0 <= g < |vals| ==> |vals[g]| == |kinds|)
    && forall g, a :: 0 <= g < |vals| && 0 <= a < |kinds| ==>
        vals[g][a] == Simple(Want(kinds[a], if regions[g] in added then base + more else base, regions[g], a))
  }

  /** One accumulator added to its group's value. */
  function AddCell(v: AggVal, kind: Kind, g: Agg): AggVal {
    match kind
    case CountStar => v.(count := v.count + g.count)
    case Sum => AggVal(v.sum + g.sum, v.count + g.count)
    case CountDistinct => v
  }

  lemma CellStep(v: AggVal, kind: Kind, base: seq<Upd<int>>, more: seq<Upd<int>>, k: int, a: nat)
    requires v == Simple(Want(kind, base, k, a))
    ensures AddCell(v, kind, Want(kind, more, k, a)) == Simple(Want(kind, base + more, k, a))
  {
    WantConcat(kind, base, more, k, a);
    WantShape(kind, more, k, a);
    AddSimple(kind, Want(kind, base, k, a), Want(kind, more, k, a));
  }

  /** The parts of an accumulator that its kind does not use stay zero. */
  predicate Shaped(kind: Kind, g: Agg) {
    (kind.CountStar? ==> g.sum == 0) && (kind.CountDistinct? ==> g.sum == 0 && g.count == 0)
  }

  lemma WantShape(kind: Kind, log: seq<Upd<int>>, k: int, a: nat)
    ensures Shaped(kind, Want(kind, log, k, a))
  {
  }

  lemma AddSimple(kind: Kind, g: Agg, h: Agg)
    requires Shaped(kind, h)
    ensures AddCell(Simple(g), kind, h) == Simple(Join(g, h))
  {
  }

  /** One slot's accumulators added to its group's values. */
  function AddSlot(row: seq<AggVal>, kinds: seq<Kind>, s: Slots, n: nat, slot: nat): (r: seq<AggVal>)
    requires |row| == |kinds| && s.Shape(|kinds|, n) && slot < n
    ensures |r| == |row| && forall a :: 0 <= a < |kinds| ==> r[a] == AddCell(row[a], kinds[a], s.At(a, slot))
  {
    seq(|kinds|, a requires 0 <= a < |kinds| => AddCell(row[a], kinds[a], s.At(a, slot)))
  }

  lemma SlotRow(row: seq<AggVal>, kinds: seq<Kind>, base: seq<Upd<int>>, more: seq<Upd<int>>, s: Slots,
                tregions: seq<int>,
                slot: nat)
    requires Holds(s, tregions, kinds, more) && slot < |tregions| && |row| == |kinds|
    requires forall a :: 0 <= a < |kinds| ==> row[a] == Simple(Want(kinds[a], base, tregions[slot], a))
    ensures forall a :: 0 <= a < |kinds| ==>
      AddSlot(row, kinds, s, |tregions|, slot)[a] == Simple(Want(kinds[a], base + more, tregions[slot], a))
  {
    forall a | 0 <= a < |kinds|
      ensures AddSlot(row, kinds, s, |tregions|, slot)[a] == Simple(Want(kinds[a], base + more, tregions[slot], a))
    {
      assert s.At(a, slot) == Want(kinds[a], more, tregions[slot], a);
      CellStep(row[a], kinds[a], base, more, tregions[slot], a);
    }
  }

  lemma SlotStep(vals: seq<seq<AggVal>>, regions: seq<int>, kinds: seq<Kind>, base: seq<Upd<int>>, more: seq<Upd<int>>,
                 s: Slots, tregions: seq<int>, slot: nat, g: nat)
    requires Holds(s, tregions, kinds, more) && slot < |tregions|
    requires SimpleState(vals, regions, kinds, base, more, tregions[..slot])
    requires forall i, j :: 0 <= i < j < |tregions| ==> tregions[i] != tregions[j]
    requires g < |regions| && regions[g] == tregions[slot]
    requires forall h :: 0 <= h < |regions| && regions[h] == tregions[slot] ==> h == g
    ensures SimpleState(vals[g := AddSlot(vals[g], kinds, s, |tregions|, slot)], regions, kinds, base, more,
      tregions[..slot + 1])
  {
    SlotRow(vals[g], kinds, base, more, s, tregions, slot) by {
      assert tregions[slot] !in tregions[..slot];
    }
    RowStep(vals, regions, kinds, base, more, tregions, slot, g, AddSlot(vals[g], kinds, s, |tregions|, slot));
  }

  lemma RowStep(vals: seq<seq<AggVal>>, regions: seq<int>, kinds: seq<Kind>, base: seq<Upd<int>>, more: seq<Upd<int>>,
                tregions: seq<int>, slot: nat, g: nat, row: seq<AggVal>)
    requires slot < |tregions| && SimpleState(vals, regions, kinds, base, more, tregions[..slot])
    requires g < |regions| && regions[g] == tregions[slot] && |row| == |kinds|
    requires forall h :: 0 <= h < |regions| && regions[h] == tregions[slot] ==> h == g
    requires forall a :: 0 <= a < |kinds| ==> row[a] == Simple(Want(kinds[a], base + more, tregions[slot], a))
    ensures SimpleState(vals[g := row], regions, kinds, base, more, tregions[..slot + 1])
  {
    assert tregions[..slot + 1] == tregions[..slot] + [tregions[slot]];
  }

  /** Keys a thread has not seen get nothing from it. */
  lemma SimpleNext(vals: seq<seq<AggVal>>, regions: seq<int>, kinds: seq<Kind>, base: seq<Upd<int>>,
                   more: seq<Upd<int>>,
                   tregions: seq<int>)
    requires SimpleState(vals, regions, kinds, base, more, tregions)
    requires forall k :: k in tregions <==> HasKey(more, k)
    ensures SimpleState(vals, regions, kinds, base + more, [], [])
  {
    forall g, a | 0 <= g < |vals| && 0 <= a < |kinds| && regions[g] !in tregions
      ensures Want(kinds[a], base, regions[g], a) == Want(kinds[a], base + more, regions[g], a)
    {
      WantConcat(kinds[a], base, more, regions[g], a);
      WantNothing(kinds[a], more, regions[g], a);
      JoinEmpty(Want(kinds[a], base, regions[g], a));
    }
  }

  method AddThread(vals: seq<seq<AggVal>>, th: IntGroupThread, kinds: seq<Kind>, ridx: map<int, nat>, regions: seq<int>,
                   ghost base: seq<Upd<int>>, ghost more: seq<Upd<int>>, ghost all: seq<Upd<int>>)
    returns (vals': seq<seq<AggVal>>)
    requires ThreadHolds(th, kinds, more) && RegionIndex(ridx, regions, all)
    requires forall k :: HasKey(more, k) ==> HasKey(all, k)
    requires SimpleState(vals, regions, kinds, base, [], [])
    ensures SimpleState(vals', regions, kinds, base + more, [], [])
  {
    vals' := vals;
    DistinctRegions(th.slotOf, th.regions);
    for slot := 0 to |th.regions|
      invariant SimpleState(vals', regions, kinds, base, more, th.regions[..slot])
    {
      assert th.regions[slot] in th.regions;
      var g := ridx[th.regions[slot]];
      SlotStep(vals', regions, kinds, base, more, th.slots, th.regions, slot, g);
      vals' := vals'[g := AddSlot(vals'[g], kinds, th.slots, |th.regions|, slot)];
    }
    assert th.regions[..|th.regions|] == th.regions;
    SimpleNext(vals', regions, kinds, base, more, th.regions);
  }

  // ---- COUNT(DISTINCT): collect each group's sets, then count on the pool ----

  ghost predicate SetsState(sets: seq<seq<set<int>>>, regions: seq<int>, a: nat, base: seq<Upd<int>>,
                            more: seq<Upd<int>>, added: seq<int>) {
    && |sets| == |regions|
    && forall g :: 0 <= g < |sets| ==>
        UnionAll(sets[g]) == ValuesOf(if regions[g] in added then base + more else base, regions[g], a)
  }

  lemma SetsStep(sets: seq<seq<set<int>>>, regions: seq<int>, a: nat, base: seq<Upd<int>>, more: seq<Upd<int>>,
                 v: set<int>, tregions: seq<int>, slot: nat, g: nat)
    requires slot < |tregions| && v == ValuesOf(more, tregions[slot], a)
    requires SetsState(sets, regions, a, base, more, tregions[..slot])
    requires forall i, j :: 0 <= i < j < |tregions| ==> tregions[i] != tregions[j]
    requires g < |regions| && regions[g] == tregions[slot]
    requires forall h :: 0 <= h < |regions| && regions[h] == tregions[slot] ==> h == g
    ensures SetsState(sets[g := sets[g] + [v]], regions, a, base, more, tregions[..slot + 1])
  {
    assert tregions[..slot + 1] == tregions[..slot] + [tregions[slot]];
    assert tregions[slot] !in tregions[..slot];
    assert Init(sets[g] + [v]) == sets[g];
    WantConcat(CountDistinct, base, more, regions[g], a);
  }

  lemma SetsNext(sets: seq<seq<set<int>>>, regions: seq<int>, a: nat, base: seq<Upd<int>>, more: seq<Upd<int>>,
                 tregions: seq<int>)
    requires SetsState(sets, regions, a, base, more, tregions)
    requires forall k :: k in tregions <==> HasKey(more, k)
    ensures SetsState(sets, regions, a, base + more, [], [])
  {
    forall g | 0 <= g < |sets| && regions[g] !in tregions
      ensures ValuesOf(base, regions[g], a) == ValuesOf(base + more, regions[g], a)
    {
      WantConcat(CountDistinct, base, more, regions[g], a);
      WantNothing(CountDistinct, more, regions[g], a);
    }
  }

  method CollectThread(sets: seq<seq<set<int>>>, th: IntGroupThread, a: nat, ghost kinds: seq<Kind>, 
                       ridx: map<int, nat>, ghost regions: seq<int>, ghost base: seq<Upd<int>>,
                       ghost more: seq<Upd<int>>, ghost all: seq<Upd<int>>)
    returns (sets': seq<seq<set<int>>>)
    requires ThreadHolds(th, kinds, more) && RegionIndex(ridx, regions, all) && a < |kinds| && kinds[a].CountDistinct?
    requires forall k :: HasKey(more, k) ==> HasKey(all, k)
    requires SetsState(sets, regions, a, base, [], [])
    ensures SetsState(sets', regions, a, base + more, [], [])
  {
    sets' := sets;
    DistinctRegions(th.slotOf, th.regions);
    for slot := 0 to |th.regions|
      invariant SetsState(sets', regions, a, base, more, th.regions[..slot])
    {
      assert th.regions[slot] in th.regions;
      var g := ridx[th.regions[slot]];
      var v := th.slots.dset[a][slot];
      assert th.slots.At(a, slot).vals == v;
      SetsStep(sets', regions, a, base, more, v, th.regions, slot, g);
      sets' := sets'[g := sets'[g] + [v]];
    }
    assert th.regions[..|th.regions|] == th.regions;
    SetsNext(sets', regions, a, base, more, th.regions);
  }

  lemma {:induction false} PartOfAll(logs: seq<seq<Upd<int>>>, t: nat, k: int)
    requires t < |logs| && HasKey(logs[t], k)
    ensures HasKey(Flatten(logs), k)
  {
    HasKeyConcat(Flatten(Init(logs)), Last(logs), k);
    if t < |logs| - 1 {
      PartOfAll(Init(logs), t, k);
    }
  }

  class IntGroupAgg {
    const kinds: seq<Kind>
    const threads: seq<IntGroupThread>
    ghost var logs: seq<seq<Upd<int>>>

    ghost predicate Valid()
      reads this, threads
    {
      && |threads| == |logs| && threads != []
      && (forall t, u :: 0 <= t < u < |threads| ==> threads[t] != threads[u])
      && (forall t :: 0 <= t < |threads| ==> ThreadHolds(threads[t], kinds, logs[t]))
    }

    constructor (maxThreads: int, kinds: seq<Kind>)
      ensures Valid() && (forall t :: 0 <= t < |threads| ==> fresh(threads[t]))
      ensures |threads| == (if maxThreads < 1 then 1 else maxThreads) && this.kinds == kinds
      ensures logs == seq(|threads|, _ => [])
    {
      var n := if maxThreads < 1 then 1 else maxThreads;
      var ts: seq<IntGroupThread> := [];
      for t := 0 to n
        invariant |ts| == t && forall i :: 0 <= i < t ==> fresh(ts[i]) && ThreadHolds(ts[i], kinds, [])
        invariant forall i, j :: 0 <= i < j < t ==> ts[i] != ts[j]
      {
        var th := new IntGroupThread(kinds);
        ts := ts + [th];
      }
      this.kinds, threads, logs := kinds, ts, seq(n, _ => []);
    }

    /** Ingests a row group on thread `tid`. */
    method ConsumeRG(tid: nat, group: seq<int>, gv: Mask, cols: seq<Column>)
      requires Valid() && tid < |threads| && Covers(gv, |group|) && ColumnsOk(kinds, cols, |group|)
      requires forall r :: 0 <= r < |group| ==> group[r] < INT32_LIMIT
      modifies this`logs, threads[tid]
      ensures Valid()
      ensures logs == old(logs)[tid := old(logs)[tid] + KeptRows(kinds, group, gv, cols, |group|)]
    {
      assert ThreadHolds(threads[tid], kinds, logs[tid]);
      threads[tid].ConsumeRG(group, gv, cols);
      logs := logs[tid := logs[tid] + KeptRows(kinds, group, gv, cols, |group|)];
    }

    /** The simple aggregates over all threads. */
    method SimpleAggregates(ridx: map<int, nat>, regions: seq<int>) returns (vals: seq<seq<AggVal>>)
      requires Valid() && RegionIndex(ridx, regions, Flatten(logs))
      ensures SimpleState(vals, regions, kinds, Flatten(logs), [], [])
    {
      vals := seq(|regions|, _ => seq(|kinds|, _ => AggVal(0, 0)));
      for t := 0 to |threads|
        invariant SimpleState(vals, regions, kinds, Flatten(logs[..t]), [], [])
      {
        forall k | HasKey(logs[t], k) ensures HasKey(Flatten(logs), k) {
          PartOfAll(logs, t, k);
        }
        vals := AddThread(vals, threads[t], kinds, ridx, regions, Flatten(logs[..t]), logs[t], Flatten(logs));
        assert Init(logs[..t + 1]) == logs[..t];
      }
      assert logs[..|logs|] == logs;
    }

    /** Every group's distinct count for aggregate `a`. */
    method DistinctCounts(a: nat, ridx: map<int, nat>, regions: seq<int>, hash: int -> u64) returns (counts: seq<nat>)
      requires Valid() && RegionIndex(ridx, regions, Flatten(logs)) && a < |kinds| && kinds[a].CountDistinct?
      ensures |counts| == |regions|
      ensures forall g :: 0 <= g < |regions| ==> counts[g] == |ValuesOf(Flatten(logs), regions[g], a)|
    {
      var sets: seq<seq<set<int>>> := seq(|regions|, _ => []);
      for t := 0 to |threads|
        invariant SetsState(sets, regions, a, Flatten(logs[..t]), [], [])
      {
        forall k | HasKey(logs[t], k) ensures HasKey(Flatten(logs), k) {
          PartOfAll(logs, t, k);
        }
        sets := CollectThread(sets, threads[t], a, kinds, ridx, regions, Flatten(logs[..t]), logs[t], Flatten(logs));
        assert Init(logs[..t + 1]) == logs[..t];
      }
      assert logs[..|logs|] == logs;
      counts := PoolCounts(sets, |threads|, hash);
    }

    /**
     * One group per key with exact COUNT(*), SUM, non-null count and COUNT(DISTINCT),
     * for every spread of the rows over threads and every schedule of the pool.
     */
    method MergeAll(hash: int -> u64) returns (out: seq<Group>)
      requires Valid()
      ensures ListsGroups(out, kinds, Flatten(logs))
    {
      var ridx, regions := IndexRegions(threads, kinds, logs);
      var vals := SimpleAggregates(ridx, regions);
      ghost var log := Flatten(logs);
      SimpleFinished(vals, regions, kinds, log);
      for a := 0 to |kinds|
        invariant FinishedBelow(vals, regions, kinds, log, a)
      {
        if kinds[a].CountDistinct? {
          var counts := DistinctCounts(a, ridx, regions, hash);
          vals := SetCounts(vals, regions, kinds, a, counts, log);
        } else {
          NotDistinct(vals, regions, kinds, log, a);
        }
      }
      out := seq(|regions|, g requires 0 <= g < |regions| => Group(regions[g], vals[g]));
      AllFinished(out, vals, ridx, regions, kinds, log);
    }
  }

  /** Simple aggregates are final, and distinct ones below `n`; the others are still zero. */
  ghost predicate FinishedBelow(vals: seq<seq<AggVal>>, regions: seq<int>, kinds: seq<Kind>, log: seq<Upd<int>>,
                                n: nat) {
    && |vals| == |regions|
    && (forall g :: 0 <= g < |vals| ==> |vals[g]| == |kinds|)
    && forall g, a :: 0 <= g < |vals| && 0 <= a < |kinds| ==>
        if kinds[a].CountDistinct? && a >= n then vals[g][a] == AggVal(0, 0)
        else IsAggregate(vals[g][a], kinds[a], log, regions[g], a)
  }

  /** Fills in the distinct counts of aggregate `a`. */
  method SetCounts(vals: seq<seq<AggVal>>, regions: seq<int>, kinds: seq<Kind>, a: nat, counts: seq<nat>,
                   ghost log: seq<Upd<int>>)
    returns (vals': seq<seq<AggVal>>)
    requires FinishedBelow(vals, regions, kinds, log, a) && a < |kinds| && kinds[a].CountDistinct?
    requires |counts| == |regions|
    requires forall g :: 0 <= g < |regions| ==> counts[g] == |ValuesOf(log, regions[g], a)|
    ensures FinishedBelow(vals', regions, kinds, log, a + 1)
  {
    vals' := seq(|regions|, g requires 0 <= g < |regions| => vals[g][a := vals[g][a].(count := counts[g])]);
  }

  lemma NotDistinct(vals: seq<seq<AggVal>>, regions: seq<int>, kinds: seq<Kind>, log: seq<Upd<int>>, a: nat)
    requires FinishedBelow(vals, regions, kinds, log, a) && a < |kinds| && !kinds[a].CountDistinct?
    ensures FinishedBelow(vals, regions, kinds, log, a + 1)
  {
  }

  lemma SimpleFinished(vals: seq<seq<AggVal>>, regions: seq<int>, kinds: seq<Kind>, log: seq<Upd<int>>)
    requires SimpleState(vals, regions, kinds, log, [], [])
    ensures FinishedBelow(vals, regions, kinds, log, 0)
  {
  }

  lemma AllFinished(out: seq<Group>, vals: seq<seq<AggVal>>, ridx: map<int, nat>, regions: seq<int>, kinds: seq<Kind>,
                    log: seq<Upd<int>>)
    requires FinishedBelow(vals, regions, kinds, log, |kinds|) && RegionIndex(ridx, regions, log)
    requires |out| == |regions| && forall g :: 0 <= g < |regions| ==> out[g] == Group(regions[g], vals[g])
    ensures ListsGroups(out, kinds, log)
  {
    forall k | HasKey(log, k) ensures exists i :: 0 <= i < |out| && out[i].key == k {
      assert out[ridx[k]].key == k;
    }
    forall i, j | 0 <= i < j < |out| ensures out[i].key != out[j].key {
      assert ridx[regions[i]] == i && ridx[regions[j]] == j;
    }
  }

  // ---- the split over threads does not show ----

  lemma JoinComm(g: Agg, h: Agg)
    ensures Join(g, h) == Join(h, g)
  {
  }

  /** Accumulators do not depend on the order of the rows. */
  lemma {:induction false} WantPermutation(kind: Kind, x: seq<Upd<int>>, y: seq<Upd<int>>, k: int, a: nat)
    requires multiset(x) == multiset(y)
    ensures Want(kind, x, k, a) == Want(kind, y, k, a)
    decreases |x|
  {
    if x == [] {
      assert |multiset(y)| == 0;
    } else {
      var u := Last(x);
      assert x == Init(x) + [u];
      var b1, b2 := SplitPermutation(Init(x), u, y);
      WantPermutation(kind, Init(x), b1 + b2, k, a);
      WantConcat(kind, Init(x), [u], k, a);
      WantConcat(kind, b1, [u] + b2, k, a);
      WantConcat(kind, [u], b2, k, a);
      WantConcat(kind, b1, b2, k, a);
      var w1, w2, wu := Want(kind, b1, k, a), Want(kind, b2, k, a), Want(kind, [u], k, a);
      JoinComm(wu, w2);
      JoinAssoc(w1, w2, wu);
    }
  }

  lemma HasKeyPermutation(x: seq<Upd<int>>, y: seq<Upd<int>>, k: int)
    requires multiset(x) == multiset(y) && HasKey(x, k)
    ensures HasKey(y, k)
  {
    var i :| 0 <= i < |x| && x[i].key == k;
    assert x[i] in multiset(y);
    var j :| 0 <= j < |y| && y[j] == x[i];
  }

  /** The same rows on other threads or in another order: the same groups. */
  lemma GroupsAgree(outA: seq<Group>, logA: seq<Upd<int>>, outB: seq<Group>, logB: seq<Upd<int>>, kinds: seq<Kind>)
    requires ListsGroups(outA, kinds, logA) && ListsGroups(outB, kinds, logB) && multiset(logA) == multiset(logB)
    ensures forall g :: g in outA <==> g in outB
  {
    forall g ensures g in outA <==> g in outB {
      if g in outA {
        ListedToo(outA, logA, outB, logB, kinds, g);
      }
      if g in outB {
        ListedToo(outB, logB, outA, logA, kinds, g);
      }
    }
  }

  lemma ListedToo(outA: seq<Group>, logA: seq<Upd<int>>, outB: seq<Group>, logB: seq<Upd<int>>, kinds: seq<Kind>,
                  g: Group)
    requires ListsGroups(outA, kinds, logA) && ListsGroups(outB, kinds, logB) && multiset(logA) == multiset(logB)
    requires g in outA
    ensures g in outB
  {
    var i :| 0 <= i < |outA| && outA[i] == g;
    HasKeyPermutation(logA, logB, g.key);
    var j :| 0 <= j < |outB| && outB[j].key == g.key;
    forall a | 0 <= a < |kinds| ensures outA[i].aggs[a] == outB[j].aggs[a] {
      WantPermutation(kinds[a], logA, logB, g.key, a);
      SameAggregate(outA[i].aggs[a], outB[j].aggs[a], kinds[a], logA, logB, g.key, a);
    }
    assert outA[i].aggs == outB[j].aggs;
  }

  lemma SameAggregate(v: AggVal, w: AggVal, kind: Kind, logA: seq<Upd<int>>, logB: seq<Upd<int>>, k: int, a: nat)
    requires IsAggregate(v, kind, logA, k, a) && IsAggregate(w, kind, logB, k, a)
    requires Want(kind, logA, k, a) == Want(kind, logB, k, a)
    ensures v == w
  {
  }
}
