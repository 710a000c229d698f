/** Bounded-heap top-k: one pass over the candidates with a heap of at most k entries, worst on top. */
module TopK {
  import opened Seqs

  /** `better` is a strict weak order. */
  ghost predicate StrictWeak<T(!new)>(better: (T, T) -> bool) {
    && (forall a, b :: better(a, b) ==> !better(b, a))
    && (forall a, b, c :: better(a, c) ==> better(a, b) || better(b, c))
  }

  ghost predicate BestFirst<T>(out: seq<T>, better: (T, T) -> bool) {
    forall i, j :: 0 <= i < j < |out| ==> !better(out[j], out[i])
  }

  ghost predicate WorstFirst<T>(out: seq<T>, better: (T, T) -> bool) {
    forall i, j :: 0 <= i < j < |out| ==> !better(out[i], out[j])
  }

  /** Nothing in `rest` is better than anything in `kept`. */
  ghost predicate Dominates<T>(kept: multiset<T>, rest: multiset<T>, better: (T, T) -> bool) {
    forall x, o :: x in rest && o in kept ==> !better(x, o)
  }

  /** Entry `i` beats no entry. */
  predicate IsWorst<T(==)>(s: seq<T>, i: nat, better: (T, T) -> bool)
    requires i < |s|
  {
    forall o :: o in s ==> !better(s[i], o)
  }

  /** `kept` are k candidates (or all, if fewer) that no candidate left out beats. */
  ghost predicate Selects<T>(kept: multiset<T>, all: multiset<T>, k: nat, better: (T, T) -> bool) {
    && |kept| == Min(k, |all|)
    && kept <= all
    && Dominates(kept, all - kept, better)
  }

  /** `out` is a top-k of `all`, best first. */
  ghost predicate IsTopK<T>(out: seq<T>, all: seq<T>, k: nat, better: (T, T) -> bool) {
    && Selects(multiset(out), multiset(all), k, better)
    && BestFirst(out, better)
  }

  // ---- the heap steps, on multisets ----

  lemma SelectsPush<T(!new)>(kept: multiset<T>, all: multiset<T>, k: nat, better: (T, T) -> bool, x: T)
    requires Selects(kept, all, k, better) && |kept| < k
    ensures Selects(kept + multiset{x}, all + multiset{x}, k, better)
  {
    assert kept == all by {
      assert all == kept + (all - kept);
    }
    assert (all + multiset{x}) - (kept + multiset{x}) == multiset{};
  }

  lemma SelectsReplace<T(!new)>(kept: multiset<T>, all: multiset<T>, k: nat, better: (T, T) -> bool, x: T, w: T)
    requires StrictWeak(better) && Selects(kept, all, k, better) && |kept| == k
    requires w in kept && (forall o :: o in kept ==> !better(w, o)) && better(x, w)
    ensures Selects(kept - multiset{w} + multiset{x}, all + multiset{x}, k, better)
  {
    var kept', rest := kept - multiset{w} + multiset{x}, all - kept;
    assert all == kept + rest;
    assert (all + multiset{x}) - kept' == rest + multiset{w};
    DominatesReplace(kept, rest, better, x, w);
  }

  lemma DominatesReplace<T(!new)>(kept: multiset<T>, rest: multiset<T>, better: (T, T) -> bool, x: T, w: T)
    requires StrictWeak(better) && Dominates(kept, rest, better)
    requires w in kept && (forall o :: o in kept ==> !better(w, o)) && better(x, w)
    ensures Dominates(kept - multiset{w} + multiset{x}, rest + multiset{w}, better)
  {
    forall d, o | d in rest + multiset{w} && o in kept - multiset{w} + multiset{x} ensures !better(d, o) {
      assert d in rest || d == w;
      assert o in kept || o == x;
      assert !better(d, w);
    }
  }

  lemma SelectsSkip<T(!new)>(kept: multiset<T>, all: multiset<T>, k: nat, better: (T, T) -> bool, x: T, w: T)
    requires StrictWeak(better) && Selects(kept, all, k, better) && |kept| == k
    requires w in kept && (forall o :: o in kept ==> !better(w, o)) && !better(x, w)
    ensures Selects(kept, all + multiset{x}, k, better)
  {
    assert all == kept + (all - kept);
    assert all + multiset{x} - kept == (all - kept) + multiset{x};
  }

  /** A min-heap of the k best candidates offered so far; any worst entry may be on top. */
  class BoundedHeap<T(==, !new)> {
    const k: nat
    const better: (T, T) -> bool
    var items: seq<T>
    ghost var seen: seq<T>

    ghost predicate Valid()
      reads this
    {
      && k > 0
      && StrictWeak(better)
      && Selects(multiset(items), multiset(seen), k, better)
    }

    constructor (k: nat, better: (T, T) -> bool)
      requires k > 0 && StrictWeak(better)
      ensures Valid() && items == seen == [] && this.k == k && this.better == better
    {
      this.k, this.better := k, better;
      items, seen := [], [];
    }

    /** The index of an entry that is on top of the heap: one that beats no other. */
    method Top() returns (i: nat)
      requires StrictWeak(better) && items != []
      ensures i < |items| && IsWorst(items, i, better)
    {
      ghost var w := SomeWorst(items, better);
      i :| i < |items| && IsWorst(items, i, better);
    }

    /** Offers one candidate. */
    method Offer(x: T)
      requires Valid()
      modifies this
      ensures Valid() && seen == old(seen) + [x]
    {
      if |items| < k {
        SelectsPush(multiset(items), multiset(seen), k, better, x);
        items := items + [x];
      } else {
        var i := Top();
        ghost var kept := multiset(items);
        if better(x, items[i]) {
          SelectsReplace(kept, multiset(seen), k, better, x, items[i]);
          RemoveAt(items, i);
          items := items[..i] + items[i + 1..] + [x];
        } else {
          SelectsSkip(kept, multiset(seen), k, better, x, items[i]);
        }
      }
      seen := seen + [x];
    }

    /** Empties the heap, worst entry first. */
    method Drain() returns (out: seq<T>)
      requires Valid()
      modifies this
      ensures multiset(out) == old(multiset(items)) && WorstFirst(out, better)
      ensures items == []
    {
      out := [];
      while items != []
        invariant StrictWeak(better)
        invariant multiset(out) + multiset(items) == old(multiset(items))
        invariant DrainedSoFar(out, items, better)
        decreases |items|
      {
        var i := Top();
        RemoveAt(items, i);
        DrainStep(out, items, i, better);
        out, items := out + [items[i]], items[..i] + items[i + 1..];
      }
    }
  }

  /** The drained entries come worst first and beat none of the entries still in the heap. */
  ghost predicate DrainedSoFar<T>(out: seq<T>, items: seq<T>, better: (T, T) -> bool) {
    && WorstFirst(out, better)
    && forall x, o :: x in out && o in items ==> !better(x, o)
  }

  lemma DrainStep<T(!new)>(out: seq<T>, items: seq<T>, i: nat, better: (T, T) -> bool)
    requires DrainedSoFar(out, items, better)
    requires i < |items| && IsWorst(items, i, better)
    ensures DrainedSoFar(out + [items[i]], items[..i] + items[i + 1..], better)
  {
    forall o | o in items[..i] + items[i + 1..] ensures o in items {
      assert o in items[..i] || o in items[i + 1..];
    }
  }

  lemma RemoveAt<T>(s: seq<T>, i: nat)
    requires i < |s|
    ensures multiset(s[..i] + s[i + 1..]) == multiset(s) - multiset{s[i]}
  {
    assert s == s[..i] + ([s[i]] + s[i + 1..]);
    MultisetAround(s[..i], s[i], s[i + 1..]);
  }

  lemma {:induction false} SomeWorst<T(!new)>(s: seq<T>, better: (T, T) -> bool) returns (i: nat)
    requires StrictWeak(better) && s != []
    ensures i < |s| && IsWorst(s, i, better)
  {
    i := |s| - 1;
    if i > 0 {
      var j := SomeWorst(Init(s), better);
      if !better(s[j], s[i]) {
        i := j;
      }
      assert forall o :: o in s ==> o in Init(s) || o == Last(s);
    }
  }

  function Reverse<T>(s: seq<T>): (r: seq<T>)
    ensures |r| == |s| && forall i :: 0 <= i < |s| ==> r[i] == s[|s| - 1 - i]
    ensures multiset(r) == multiset(s)
  {
    if s == [] then []
    else
      assert s == Init(s) + [Last(s)];
      [Last(s)] + Reverse(Init(s))
  }

  /** The one-pass loop: offer every candidate, drain the heap, reverse. */
  method SelectTopK<T(==, !new)>(all: seq<T>, k: nat, better: (T, T) -> bool) returns (out: seq<T>)
    requires k > 0 && StrictWeak(better)
    ensures IsTopK(out, all, k, better)
  {
    var heap := new BoundedHeap(k, better);
    for i := 0 to |all|
      invariant heap.Valid() && heap.seen == all[..i] && fresh(heap)
      invariant heap.k == k && heap.better == better
    {
      heap.Offer(all[i]);
      assert all[..i + 1] == all[..i] + [all[i]];
    }
    assert all[..|all|] == all;
    var worst := heap.Drain();
    out := Reverse(worst);
  }

  // ---- what a top-k determines ----

  /** Two top-k lists of the same candidates agree rank by rank, up to ties. */
  lemma TopKUnique<T(!new)>(a: seq<T>, b: seq<T>, all: seq<T>, k: nat, better: (T, T) -> bool, i: nat)
    requires StrictWeak(better)
    requires IsTopK(a, all, k, better) && IsTopK(b, all, k, better)
    requires i < |a|
    ensures |a| == |b|
    ensures !better(a[i], b[i]) && !better(b[i], a[i])
  {
    assert |multiset(a)| == |a| && |multiset(b)| == |b|;
    RankNotBetter(a, b, all, k, better, i);
    RankNotBetter(b, a, all, k, better, i);
  }

  lemma RankNotBetter<T(!new)>(a: seq<T>, b: seq<T>, all: seq<T>, k: nat, better: (T, T) -> bool, i: nat)
    requires StrictWeak(better)
    requires IsTopK(a, all, k, better) && IsTopK(b, all, k, better)
    requires i < |a| == |b|
    ensures !better(a[i], b[i])
  {
    assert forall j :: 0 <= j < i ==> !better(a[i], a[j]);
    if better(a[i], b[i]) {
      var x := MoreOf(a[..i + 1], b[..i]);
      PrefixCount(a, i + 1, x);
      SuffixAbsent(b, i, x, better);
    }
  }

  /** A longer list has some element more often than a shorter one. */
  lemma MoreOf<T>(s: seq<T>, t: seq<T>) returns (x: T)
    requires |s| > |t|
    ensures x in s && multiset(s)[x] > multiset(t)[x]
  {
    var m, n := multiset(s), multiset(t);
    SubMultisetSize(m, n);
    x :| x in m && m[x] > n[x];
  }

  lemma SubMultisetSize<T>(m: multiset<T>, n: multiset<T>)
    ensures m <= n ==> |m| <= |n| && (|m| == |n| ==> m == n)
  {
    if m <= n {
      assert n == m + (n - m);
    }
  }

  lemma PrefixCount<T>(s: seq<T>, i: nat, x: T)
    requires i <= |s|
    ensures multiset(s)[x] >= multiset(s[..i])[x]
  {
    assert s == s[..i] + s[i..];
  }

  /** What beats rank `i` of a best-first list occurs only before it. */
  lemma SuffixAbsent<T>(s: seq<T>, i: nat, x: T, better: (T, T) -> bool)
    requires i < |s| && BestFirst(s, better) && better(x, s[i])
    requires !better(s[i], s[i])
    ensures multiset(s)[x] == multiset(s[..i])[x]
  {
    assert s == s[..i] + s[i..];
    assert x !in s[i..];
  }

  // ---- combining the top-k lists of the parts of a partition ----

  ghost predicate TopsOf<T>(tops: seq<seq<T>>, parts: seq<seq<T>>, k: nat, better: (T, T) -> bool) {
    && |tops| == |parts|
    && forall w :: 0 <= w < |parts| ==> Selects(multiset(tops[w]), multiset(parts[w]), k, better)
  }

  lemma {:induction false} FlattenPart<T>(parts: seq<seq<T>>, w: nat)
    requires w < |parts|
    ensures multiset(parts[w]) <= multiset(Flatten(parts))
  {
    if w < |parts| - 1 {
      FlattenPart(Init(parts), w);
    }
  }

  /** What the parts leave out, the union leaves out of some part whose list is full. */
  lemma {:induction false} TopsFlatten<T(!new)>(tops: seq<seq<T>>, parts: seq<seq<T>>, k: nat, better: (T, T) -> bool)
    requires TopsOf(tops, parts, k, better)
    ensures multiset(Flatten(tops)) <= multiset(Flatten(parts))
    ensures |Flatten(tops)| < k ==> |Flatten(tops)| == |Flatten(parts)|
    ensures forall x :: x in multiset(Flatten(parts)) - multiset(Flatten(tops)) ==> LeftOut(tops, x, k, better)
  {
    if parts != [] {
      var ts, ps, t, p := Init(tops), Init(parts), Last(tops), Last(parts);
      TopsFlatten(ts, ps, k, better);
      SubMultisetSize(multiset(t), multiset(p));
      SubMultisetSize(multiset(Flatten(ts)), multiset(Flatten(ps)));
      forall x | x in multiset(Flatten(parts)) - multiset(Flatten(tops))
        ensures LeftOut(tops, x, k, better)
      {
        LeftOutStep(tops, Flatten(ts), Flatten(ps), t, p, x, k, better);
      }
    }
  }

  lemma LeftOutStep<T(!new)>(tops: seq<seq<T>>, fts: seq<T>, fps: seq<T>, t: seq<T>, p: seq<T>, x: T,
                             k: nat, better: (T, T) -> bool)
    requires tops != [] && Last(tops) == t && Selects(multiset(t), multiset(p), k, better)
    requires x in multiset(fps) - multiset(fts) ==> LeftOut(Init(tops), x, k, better)
    requires x in multiset(fps + p) - multiset(fts + t)
    ensures LeftOut(tops, x, k, better)
  {
    if x in multiset(fps) - multiset(fts) {
      var w :| 0 <= w < |Init(tops)| && |Init(tops)[w]| == k && forall o :: o in Init(tops)[w] ==> !better(x, o);
      assert tops[w] == Init(tops)[w];
    } else {
      assert x in multiset(p) - multiset(t);
      SubMultisetSize(multiset(t), multiset(p));
      assert tops[|tops| - 1] == t && |t| == k;
    }
  }

  ghost predicate LeftOut<T>(tops: seq<seq<T>>, x: T, k: nat, better: (T, T) -> bool) {
    exists w :: 0 <= w < |tops| && |tops[w]| == k && forall o :: o in tops[w] ==> !better(x, o)
  }

  /** A top-k of the parts' top-k lists is a top-k of everything. */
  lemma CombineTopK<T(!new)>(out: seq<T>, tops: seq<seq<T>>, parts: seq<seq<T>>, k: nat, better: (T, T) -> bool)
    requires StrictWeak(better)
    requires TopsOf(tops, parts, k, better)
    requires IsTopK(out, Flatten(tops), k, better)
    ensures IsTopK(out, Flatten(parts), k, better)
  {
    TopsFlatten(tops, parts, k, better);
    var kept, cand, all := multiset(out), multiset(Flatten(tops)), multiset(Flatten(parts));
    SubMultisetSize(cand, all);
    forall x, o | x in all - kept && o in kept ensures !better(x, o) {
      if x in cand - kept {
      } else {
        assert x in all - cand;
        assert LeftOut(tops, x, k, better);
        var w :| 0 <= w < |tops| && |tops[w]| == k && forall o :: o in tops[w] ==> !better(x, o);
        BeatenThroughPart(kept, cand, tops, w, x, o, k, better);
      }
    }
  }

  lemma BeatenThroughPart<T(!new)>(kept: multiset<T>, cand: multiset<T>, tops: seq<seq<T>>, w: nat, x: T, o: T,
                                   k: nat, better: (T, T) -> bool)
    requires StrictWeak(better) && cand == multiset(Flatten(tops))
    requires Selects(kept, cand, k, better) && o in kept
    requires w < |tops| && |tops[w]| == k && forall t :: t in tops[w] ==> !better(x, t)
    ensures !better(x, o)
  {
    var part := multiset(tops[w]);
    FlattenPart(tops, w);
    SubMultisetSize(part, kept);
    if part <= kept {
      assert o in tops[w];
    } else {
      var t :| t in part && part[t] > kept[t];
      assert t in cand - kept;
      assert t in tops[w];
    }
  }

  // ---- heaps of handles ----

  ghost predicate Defined<S, T>(f: S --> T, s: seq<S>) {
    forall x :: x in s ==> f.requires(x)
  }

  function Map<S, T>(f: S --> T, s: seq<S>): (r: seq<T>)
    requires Defined(f, s)
    ensures |r| == |s| && forall i :: 0 <= i < |s| ==> r[i] == f(s[i])
  {
    seq(|s|, i requires 0 <= i < |s| => f(s[i]))
  }

  lemma {:induction false} MapPermutation<S, T>(f: S --> T, a: seq<S>, b: seq<S>)
    requires multiset(a) == multiset(b)
    requires Defined(f, a) && Defined(f, b)
    ensures multiset(Map(f, a)) == multiset(Map(f, b))
    decreases |a|
  {
    if a == [] {
      assert |multiset(b)| == 0;
    } else {
      assert a == Init(a) + [Last(a)];
      var b1, b2 := SplitPermutation(Init(a), Last(a), b);
      assert Defined(f, b1) && Defined(f, b2) && Defined(f, b1 + b2);
      MapPermutation(f, Init(a), b1 + b2);
      assert Map(f, a) == Map(f, Init(a)) + [f(Last(a))];
      assert Map(f, b) == Map(f, b1) + ([f(Last(a))] + Map(f, b2));
      assert Map(f, b1 + b2) == Map(f, b1) + Map(f, b2);
      MultisetAround(Map(f, b1), f(Last(a)), Map(f, b2));
    }
  }

  lemma {:induction false} ListMultiset<T>(m: multiset<T>) returns (s: seq<T>)
    ensures multiset(s) == m
    decreases |m|
  {
    if m == multiset{} {
      s := [];
    } else {
      var x :| x in m;
      s := ListMultiset(m - multiset{x});
      s := s + [x];
      assert m == (m - multiset{x}) + multiset{x};
    }
  }

  /** A top-k of handles gives a top-k of what they stand for. */
  lemma MapTopK<S(!new), T(!new)>(f: S --> T, out: seq<S>, all: seq<S>, k: nat,
                                  betterS: (S, S) -> bool, betterT: (T, T) -> bool)
    requires IsTopK(out, all, k, betterS) && Defined(f, all)
    requires forall x, y :: x in all && y in all ==> betterS(x, y) == betterT(f(x), f(y))
    ensures Defined(f, out)
    ensures IsTopK(Map(f, out), Map(f, all), k, betterT)
  {
    var rest := ListMultiset(multiset(all) - multiset(out));
    assert multiset(all) == multiset(out + rest);
    PartsOf(out, rest, all);
    MapSelects(f, out, rest, all, k, betterS, betterT);
    forall i, j | 0 <= i < j < |out| ensures !betterT(Map(f, out)[j], Map(f, out)[i]) {
      assert out[i] in all && out[j] in all;
    }
  }

  lemma MapSelects<S(!new), T(!new)>(f: S --> T, out: seq<S>, rest: seq<S>, all: seq<S>, k: nat,
                                     betterS: (S, S) -> bool, betterT: (T, T) -> bool)
    requires Defined(f, all) && Defined(f, out) && Defined(f, rest)
    requires multiset(all) == multiset(out + rest)
    requires Dominates(multiset(out), multiset(rest), betterS) && |out| == Min(k, |all|)
    requires forall x, y :: x in rest && y in out ==> betterS(x, y) == betterT(f(x), f(y))
    ensures Selects(multiset(Map(f, out)), multiset(Map(f, all)), k, betterT)
  {
    assert Defined(f, out + rest);
    MapPermutation(f, all, out + rest);
    assert Map(f, out + rest) == Map(f, out) + Map(f, rest);
    MultisetConcat(Map(f, out), Map(f, rest));
    var kept, left := multiset(Map(f, out)), multiset(Map(f, rest));
    assert multiset(Map(f, all)) - kept == left;
    MapDominates(f, out, rest, betterS, betterT);
  }

  lemma PartsOf<S>(out: seq<S>, rest: seq<S>, all: seq<S>)
    requires multiset(all) == multiset(out + rest)
    ensures multiset(all) - multiset(out) == multiset(rest)
    ensures (forall x :: x in out ==> x in all) && (forall x :: x in rest ==> x in all)
  {
    assert multiset(out + rest) == multiset(out) + multiset(rest);
    forall x | x in out || x in rest ensures x in all {
      assert x in multiset(all);
    }
  }

  lemma MapDominates<S(!new), T(!new)>(f: S --> T, out: seq<S>, rest: seq<S>,
                                       betterS: (S, S) -> bool, betterT: (T, T) -> bool)
    requires Defined(f, out) && Defined(f, rest)
    requires Dominates(multiset(out), multiset(rest), betterS)
    requires forall x, y :: x in rest && y in out ==> betterS(x, y) == betterT(f(x), f(y))
    ensures Dominates(multiset(Map(f, out)), multiset(Map(f, rest)), betterT)
  {
    forall x, o | x in multiset(Map(f, rest)) && o in multiset(Map(f, out)) ensures !betterT(x, o) {
      var i :| 0 <= i < |rest| && Map(f, rest)[i] == x;
      var j :| 0 <= j < |out| && Map(f, out)[j] == o;
      assert rest[i] in multiset(rest) && out[j] in multiset(out);
    }
  }

  // ---- the usual case: entries of tables, ranked by a count kept in the handle ----

  /** Entry `row` of table `shard`, with the count it is ranked by. */
  datatype HeapEntry = HeapEntry(count: int, shard: nat, row: nat)

  predicate MoreCounted(a: HeapEntry, b: HeapEntry) {
    a.count > b.count
  }

  predicate InTables<T>(tables: seq<seq<T>>, e: HeapEntry) {
    e.shard < |tables| && e.row < |tables[e.shard]|
  }

  function EntryIn<T>(tables: seq<seq<T>>): HeapEntry --> T {
    e requires InTables(tables, e) => tables[e.shard][e.row]
  }

  ghost predicate Offered<T>(tables: seq<seq<T>>, seen: seq<HeapEntry>, count: T -> int) {
    forall e :: e in seen ==> InTables(tables, e) && e.count == count(tables[e.shard][e.row])
  }

  /** Offers a handle for every entry of table `s`. */
  method OfferTable<T>(heap: BoundedHeap<HeapEntry>, tables: seq<seq<T>>, s: nat, count: T -> int)
    requires heap.Valid() && s < |tables|
    requires Offered(tables, heap.seen, count)
    modifies heap
    ensures heap.Valid()
    ensures Offered(tables, heap.seen, count)
    ensures Map(EntryIn(tables), heap.seen) == Map(EntryIn(tables), old(heap.seen)) + tables[s]
  {
    ghost var before := Map(EntryIn(tables), heap.seen);
    for i := 0 to |tables[s]|
      invariant heap.Valid()
      invariant Offered(tables, heap.seen, count)
      invariant Map(EntryIn(tables), heap.seen) == before + tables[s][..i]
    {
      OfferedStep(tables, heap.seen, s, i, count);
      heap.Offer(HeapEntry(count(tables[s][i]), s, i));
      assert tables[s][..i + 1] == tables[s][..i] + [tables[s][i]];
    }
  }

  lemma OfferedStep<T>(tables: seq<seq<T>>, seen: seq<HeapEntry>, s: nat, i: nat, count: T -> int)
    requires Offered(tables, seen, count) && s < |tables| && i < |tables[s]|
    ensures var seen' := seen + [HeapEntry(count(tables[s][i]), s, i)];
      && Defined(EntryIn(tables), seen) && Offered(tables, seen', count) && Defined(EntryIn(tables), seen')
      && Map(EntryIn(tables), seen') == Map(EntryIn(tables), seen) + [tables[s][i]]
  {
  }

  /** Builds the result rows the handles stand for. */
  method Materialise<T>(tables: seq<seq<T>>, es: seq<HeapEntry>) returns (out: seq<T>)
    requires Defined(EntryIn(tables), es) && forall e :: e in es ==> InTables(tables, e)
    ensures out == Map(EntryIn(tables), es)
  {
    out := [];
    for i := 0 to |es|
      invariant out == Map(EntryIn(tables), es)[..i]
    {
      var e := es[i];
      assert e in es;
      out := out + [tables[e.shard][e.row]];
    }
  }

  /** The one-pass loop over all tables: offer a handle per entry, drain, materialise the winners, reverse. */
  method TopKOfTables<T(!new)>(tables: seq<seq<T>>, k: nat, count: T -> int, ghost better: (T, T) -> bool)
    returns (out: seq<T>)
    requires k > 0
    requires forall a, b :: better(a, b) <==> count(a) > count(b)
    ensures IsTopK(out, Flatten(tables), k, better)
  {
    var heap := new BoundedHeap(k, MoreCounted);
    for s := 0 to |tables|
      invariant heap.Valid() && fresh(heap) && heap.k == k && heap.better == MoreCounted
      invariant Offered(tables, heap.seen, count) && Map(EntryIn(tables), heap.seen) == Flatten(tables[..s])
    {
      OfferTable(heap, tables, s, count);
      assert Init(tables[..s + 1]) == tables[..s];
    }
    assert tables[..|tables|] == tables;
    ghost var all := heap.seen;
    var worst := heap.Drain();
    HandlesTopK(tables, worst, all, k, count, better);
    out := Materialise(tables, worst);
    out := Reverse(out);
  }

  lemma HandlesTopK<T(!new)>(tables: seq<seq<T>>, worst: seq<HeapEntry>, all: seq<HeapEntry>, k: nat,
                             count: T -> int, better: (T, T) -> bool)
    requires forall a, b :: better(a, b) <==> count(a) > count(b)
    requires Offered(tables, all, count)
    requires Selects(multiset(worst), multiset(all), k, MoreCounted) && WorstFirst(worst, MoreCounted)
    ensures Defined(EntryIn(tables), worst) && forall e :: e in worst ==> InTables(tables, e)
    ensures IsTopK(Reverse(Map(EntryIn(tables), worst)), Map(EntryIn(tables), all), k, better)
  {
    var f := EntryIn(tables);
    forall e | e in worst ensures InTables(tables, e) && f.requires(e) {
      assert e in multiset(worst) && e in multiset(all);
      assert e in all;
    }
    ReverseSame(worst, MoreCounted);
    MapTopK(f, Reverse(worst), all, k, MoreCounted, better);
    ReverseMap(f, worst);
  }

  lemma {:induction false} ReverseSame<T>(s: seq<T>, better: (T, T) -> bool)
    requires WorstFirst(s, better)
    ensures BestFirst(Reverse(s), better) && multiset(Reverse(s)) == multiset(s)
  {
  }

  lemma {:induction false} ReverseMap<S, T>(f: S --> T, s: seq<S>)
    requires Defined(f, s)
    ensures Defined(f, Reverse(s)) && Reverse(Map(f, s)) == Map(f, Reverse(s))
  {
    var r := Reverse(s);
    forall x | x in r ensures f.requires(x) {
      var i :| 0 <= i < |r| && r[i] == x;
      assert s[|s| - 1 - i] in s;
    }
    var a, b := Reverse(Map(f, s)), Map(f, r);
    forall i | 0 <= i < |s| ensures a[i] == b[i] {
      assert a[i] == Map(f, s)[|s| - 1 - i];
    }
  }
}
