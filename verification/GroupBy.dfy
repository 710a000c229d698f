/** The meaning of GROUP BY with COUNT(*), SUM and COUNT aggregates, independent of any table layout. */
module GroupBy {
  import opened Seqs

  /** One input row: its group key and, for each aggregate, a value and whether it is non-null. */
  datatype Upd<K> = Upd(key: K, vals: seq<int>, valid: seq<bool>)

  /** COUNT(*), and one SUM and one COUNT per aggregate. */
  datatype Acc = Acc(count: int, sum: seq<int>, cnt: seq<int>)

  // ---- the declarative definition ----

  /** The number of rows of group `k`. */
  function CountOf<K(==)>(log: seq<Upd<K>>, k: K): nat {
    if log == [] then 0
    else CountOf(log[..|log| - 1], k) + (if log[|log| - 1].key == k then 1 else 0)
  }

  predicate Present<K>(u: Upd<K>, a: nat) {
    a < |u.vals| && a < |u.valid| && u.valid[a]
  }

  /** The number of rows of group `k` in which aggregate `a` has a value. */
  function CntOf<K(==)>(log: seq<Upd<K>>, k: K, a: nat): nat {
    if log == [] then 0
    else
      var u := log[|log| - 1];
      CntOf(log[..|log| - 1], k, a) + (if u.key == k && Present(u, a) then 1 else 0)
  }

  /** The sum of aggregate `a` over the rows of group `k` in which it has a value. */
  function SumOf<K(==)>(log: seq<Upd<K>>, k: K, a: nat): int {
    if log == [] then 0
    else
      var u := log[|log| - 1];
      SumOf(log[..|log| - 1], k, a) + (if u.key == k && Present(u, a) then u.vals[a] else 0)
  }

  ghost function KeysOf<K>(log: seq<Upd<K>>): set<K> {
    set u | u in log :: u.key
  }

  /** `m` is the result of grouping `log`: one entry per key that occurs, with the exact aggregates. */
  ghost predicate IsGroupBy<K(!new)>(m: map<K, Acc>, log: seq<Upd<K>>) {
    && m.Keys == KeysOf(log)
    && forall k :: k in m ==> AccOf(m[k], log, k)
  }

  ghost predicate AccOf<K(!new)>(acc: Acc, log: seq<Upd<K>>, k: K) {
    && acc.count == CountOf(log, k)
    && (forall a: nat :: At(acc.sum, a) == SumOf(log, k, a))
    && (forall a: nat :: At(acc.cnt, a) == CntOf(log, k, a))
  }

  // ---- accumulators ----

  function At(v: seq<int>, i: nat): int {
    if i < |v| then v[i] else 0
  }

  /** Pointwise sum; the shorter vector counts as padded with zeros. */
  function VecAdd(a: seq<int>, b: seq<int>): (r: seq<int>)
    ensures |r| == (if |a| < |b| then |b| else |a|)
    ensures forall i: nat :: At(r, i) == At(a, i) + At(b, i)
  {
    seq(if |a| < |b| then |b| else |a|, i requires i >= 0 => At(a, i) + At(b, i))
  }

  function Plus(a: Acc, b: Acc): Acc {
    Acc(a.count + b.count, VecAdd(a.sum, b.sum), VecAdd(a.cnt, b.cnt))
  }

  lemma VecAddComm(a: seq<int>, b: seq<int>)
    ensures VecAdd(a, b) == VecAdd(b, a)
  {
    SameVec(VecAdd(a, b), VecAdd(b, a));
  }

  lemma VecAddAssoc(a: seq<int>, b: seq<int>, c: seq<int>)
    ensures VecAdd(VecAdd(a, b), c) == VecAdd(a, VecAdd(b, c))
  {
    SameVec(VecAdd(VecAdd(a, b), c), VecAdd(a, VecAdd(b, c)));
  }

  lemma SameVec(a: seq<int>, b: seq<int>)
    requires |a| == |b|
    requires forall i: nat :: At(a, i) == At(b, i)
    ensures a == b
  {
    forall i: nat | i < |a| ensures a[i] == b[i] {
      assert At(a, i) == At(b, i);
    }
  }

  lemma PlusComm(a: Acc, b: Acc)
    ensures Plus(a, b) == Plus(b, a)
  {
    VecAddComm(a.sum, b.sum);
    VecAddComm(a.cnt, b.cnt);
  }

  lemma PlusAssoc(a: Acc, b: Acc, c: Acc)
    ensures Plus(Plus(a, b), c) == Plus(a, Plus(b, c))
  {
    VecAddAssoc(a.sum, b.sum, c.sum);
    VecAddAssoc(a.cnt, b.cnt, c.cnt);
  }

  /** What one row adds to its group: null inputs add nothing. */
  function Contribution(vals: seq<int>, valid: seq<bool>): (r: Acc)
    ensures r.count == 1 && |r.sum| == |r.cnt| == |vals|
  {
    Acc(1,
        seq(|vals|, i requires 0 <= i < |vals| => if i < |valid| && valid[i] then vals[i] else 0),
        seq(|vals|, i requires 0 <= i < |vals| => if i < |valid| && valid[i] then 1 else 0))
  }

  // ---- groups as maps ----

  function Absorb<K(==)>(m: map<K, Acc>, k: K, a: Acc): map<K, Acc> {
    m[k := if k in m then Plus(m[k], a) else a]
  }

  function Merge<K(==)>(m: map<K, Acc>, n: map<K, Acc>): map<K, Acc> {
    map k | k in m.Keys + n.Keys ::
      if k !in n then m[k] else if k !in m then n[k] else Plus(m[k], n[k])
  }

  /** The groups of a sequence of rows, folded in order. */
  function Fold<K(==)>(log: seq<Upd<K>>): map<K, Acc> {
    if log == [] then map[]
    else
      var u := log[|log| - 1];
      Absorb(Fold(log[..|log| - 1]), u.key, Contribution(u.vals, u.valid))
  }

  lemma {:induction false} FoldSnoc<K>(log: seq<Upd<K>>, u: Upd<K>)
    ensures Fold(log + [u]) == Absorb(Fold(log), u.key, Contribution(u.vals, u.valid))
  {
    assert (log + [u])[..|log|] == log;
  }

  /** Folding computes GROUP BY. */
  lemma {:induction false} FoldIsGroupBy<K(!new)>(log: seq<Upd<K>>)
    ensures IsGroupBy(Fold(log), log)
  {
    if log != [] {
      var n := |log| - 1;
      var u := log[n];
      var rest := log[..n];
      FoldIsGroupBy(rest);
      assert log == rest + [u];
      assert KeysOf(log) == KeysOf(rest) + {u.key};
      var m := Fold(log);
      forall k | k in m ensures AccOf(m[k], log, k) {
        if k !in Fold(rest) {
          NoRows(rest, k);
        }
        forall a: nat
          ensures At(m[k].sum, a) == SumOf(log, k, a) && At(m[k].cnt, a) == CntOf(log, k, a)
        {
          var c := Contribution(u.vals, u.valid);
          assert At(c.sum, a) == (if Present(u, a) then u.vals[a] else 0);
          assert At(c.cnt, a) == (if Present(u, a) then 1 else 0);
          if k !in Fold(rest) {
            NoValues(rest, k, a);
          }
        }
      }
    }
  }

  lemma {:induction false} NoRows<K>(log: seq<Upd<K>>, k: K)
    requires k !in KeysOf(log)
    ensures CountOf(log, k) == 0
  {
    if log != [] {
      assert log[|log| - 1] in log;
      NoRows(log[..|log| - 1], k);
    }
  }

  lemma {:induction false} NoValues<K>(log: seq<Upd<K>>, k: K, a: nat)
    requires k !in KeysOf(log)
    ensures SumOf(log, k, a) == 0 && CntOf(log, k, a) == 0
  {
    if log != [] {
      assert log[|log| - 1] in log;
      NoValues(log[..|log| - 1], k, a);
    }
  }

  lemma {:induction false} FoldSize<K>(log: seq<Upd<K>>)
    ensures |Fold(log)| <= |log|
  {
    if log != [] {
      FoldSize(log[..|log| - 1]);
      var m := Fold(log[..|log| - 1]);
      var u := log[|log| - 1];
      assert Fold(log).Keys == m.Keys + {u.key};
      assert |Fold(log).Keys| <= |m.Keys| + 1;
    }
  }

  // ---- merging ----

  lemma MergeComm<K>(m: map<K, Acc>, n: map<K, Acc>)
    ensures Merge(m, n) == Merge(n, m)
  {
    forall k | k in m && k in n ensures Plus(m[k], n[k]) == Plus(n[k], m[k]) {
      PlusComm(m[k], n[k]);
    }
  }

  lemma MergeAbsorb<K>(m: map<K, Acc>, n: map<K, Acc>, k: K, a: Acc)
    ensures Merge(m, Absorb(n, k, a)) == Absorb(Merge(m, n), k, a)
  {
    if k in m && k in n {
      PlusAssoc(m[k], n[k], a);
    }
  }

  /** Grouping a concatenation is merging the groups. */
  lemma {:induction false} FoldConcat<K>(a: seq<Upd<K>>, b: seq<Upd<K>>)
    ensures Fold(a + b) == Merge(Fold(a), Fold(b))
  {
    if b == [] {
      assert a + b == a;
    } else {
      var n := |b| - 1;
      FoldConcat(a, b[..n]);
      assert a + b == (a + b[..n]) + [b[n]];
      FoldSnoc(a + b[..n], b[n]);
      MergeAbsorb(Fold(a), Fold(b[..n]), b[n].key, Contribution(b[n].vals, b[n].valid));
    }
  }

  /** The groups do not depend on the order of the rows. */
  lemma {:induction false} FoldPermutation<K>(a: seq<Upd<K>>, b: seq<Upd<K>>)
    requires multiset(a) == multiset(b)
    ensures Fold(a) == Fold(b)
    decreases |a|
  {
    if a == [] {
      assert |b| == |multiset(b)| == 0;
    } else {
      var n := |a| - 1;
      var u := a[n];
      assert a == a[..n] + [u];
      var b1, b2 := SplitPermutation(a[..n], u, b);
      FoldPermutation(a[..n], b1 + b2);
      FoldMoveLast(b1, u, b2);
    }
  }

  lemma FoldMoveLast<K>(b1: seq<Upd<K>>, u: Upd<K>, b2: seq<Upd<K>>)
    ensures Fold(b1 + ([u] + b2)) == Absorb(Fold(b1 + b2), u.key, Contribution(u.vals, u.valid))
  {
    FoldConcat(b1, [u] + b2);
    FoldConcat([u], b2);
    FoldConcat(b2, [u]);
    MergeComm(Fold([u]), Fold(b2));
    FoldConcat(b1, b2 + [u]);
    assert b1 + (b2 + [u]) == (b1 + b2) + [u];
    FoldSnoc(b1 + b2, u);
  }
}
