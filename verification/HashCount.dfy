/** COUNT(*) GROUP BY string: per-thread bounded tables, then a merge of their spills over hash ranges. */
module HashCount {
  import opened Bits
  import opened HashCountThread
  import opened HashMerge
  import opened Masks
  import opened Seqs
  import opened TopK

  const MAX_U64: u64 := 0xFFFF_FFFF_FFFF_FFFF

  // ---- what a listing must be ----

  /** Every counted string once, with its exact total. */
  ghost predicate ListsStrings(out: seq<Counted>, log: seq<Counted>) {
    && (forall i, j :: 0 <= i < j < |out| ==> out[i].key != out[j].key)
    && (forall i :: 0 <= i < |out| ==> Occurs(log, out[i].key) && out[i].count == CountOf(log, out[i].key))
    && (forall s :: Occurs(log, s) ==> HasKey(out, s))
  }

  ghost predicate HasKey(out: seq<Counted>, s: Bytes) {
    exists i :: 0 <= i < |out| && out[i].key == s
  }

  /** No two counted strings collide. */
  ghost predicate InjectiveOn(log: seq<Counted>, hashOf: Bytes -> u64) {
    forall s, t :: Occurs(log, s) && Occurs(log, t) && hashOf(s) == hashOf(t) ==> s == t
  }

  lemma {:induction false} HashTotalIsCount(log: seq<Counted>, s: Bytes, hashOf: Bytes -> u64)
    requires forall t :: Occurs(log, t) && hashOf(t) == hashOf(s) ==> t == s
    ensures HashTotal(log, hashOf(s), hashOf) == CountOf(log, s)
  {
    if log != [] {
      assert log == Init(log) + [Last(log)];
      forall t | Occurs(Init(log), t) && hashOf(t) == hashOf(s) ensures t == s {
        OccursAppend(Init(log), Last(log), t);
      }
      OccursAppend(Init(log), Last(log), Last(log).key);
      HashTotalIsCount(Init(log), s, hashOf);
    }
  }

  // ---- totals by hash do not depend on the order of the entries ----

  function Without(log: seq<Counted>, s: Bytes): (r: seq<Counted>)
    ensures |r| <= |log|
    ensures log != [] && Last(log).key == s ==> |r| < |log|
  {
    if log == [] then []
    else if Last(log).key == s then Without(Init(log), s)
    else Without(Init(log), s) + [Last(log)]
  }

  lemma {:induction false} WithoutKey(log: seq<Counted>, s: Bytes, t: Bytes)
    ensures CountOf(Without(log, s), t) == if t == s then 0 else CountOf(log, t)
    ensures Occurs(Without(log, s), t) <==> t != s && Occurs(log, t)
  {
    if log != [] {
      var c := Last(log);
      WithoutKey(Init(log), s, t);
      assert log == Init(log) + [c];
      OccursAppend(Init(log), c, t);
      OccursAppend(Without(Init(log), s), c, t);
      assert Init(Without(Init(log), s) + [c]) == Without(Init(log), s);
    }
  }

  lemma {:induction false} TotalWithout(log: seq<Counted>, s: Bytes, h: u64, hashOf: Bytes -> u64)
    ensures HashTotal(log, h, hashOf) ==
      HashTotal(Without(log, s), h, hashOf) + if hashOf(s) == h then CountOf(log, s) else 0
  {
    if log != [] {
      TotalWithout(Init(log), s, h, hashOf);
      assert Init(Without(Init(log), s) + [Last(log)]) == Without(Init(log), s);
    }
  }

  lemma {:induction false} SameHashTotals(a: seq<Counted>, b: seq<Counted>, h: u64, hashOf: Bytes -> u64)
    requires SameCounts(a, b)
    ensures HashTotal(a, h, hashOf) == HashTotal(b, h, hashOf)
    decreases |a|
  {
    if a == [] {
      assert b != [] ==> Occurs(b, b[0].key);
    } else {
      var s := Last(a).key;
      TotalWithout(a, s, h, hashOf);
      TotalWithout(b, s, h, hashOf);
      forall t ensures CountOf(Without(a, s), t) == CountOf(Without(b, s), t)
        && (Occurs(Without(a, s), t) <==> Occurs(Without(b, s), t))
      {
        WithoutKey(a, s, t);
        WithoutKey(b, s, t);
      }
      SameHashTotals(Without(a, s), Without(b, s), h, hashOf);
    }
  }

  /** The groups of what was spilled are the groups of what was counted. */
  lemma GroupsOfLog(groups: seq<Counted>, spilled: seq<Counted>, log: seq<Counted>, hashOf: Bytes -> u64)
    requires Grouped(groups, spilled, 0, 0, true, hashOf) && SameCounts(spilled, log)
    ensures Grouped(groups, log, 0, 0, true, hashOf)
  {
    forall i | 0 <= i < |groups| ensures IsGroup(groups[i], log, hashOf) {
      assert IsGroup(groups[i], spilled, hashOf);
      SameHashTotals(spilled, log, hashOf(groups[i].key), hashOf);
    }
  }

  /** The groups of the whole hash space list the strings exactly when no two of them collide. */
  lemma GroupsListStrings(groups: seq<Counted>, spilled: seq<Counted>, log: seq<Counted>, hashOf: Bytes -> u64)
    requires Grouped(groups, spilled, 0, 0, true, hashOf) && SameCounts(spilled, log)
    ensures ListsStrings(groups, log) <==> InjectiveOn(log, hashOf)
  {
    if ListsStrings(groups, log) {
      forall s, t | Occurs(log, s) && Occurs(log, t) && hashOf(s) == hashOf(t) ensures s == t {
        assert HasKey(groups, s) && HasKey(groups, t);
        SameHashSameKey(groups, s, t, hashOf);
      }
    }
    if InjectiveOn(log, hashOf) {
      forall i | 0 <= i < |groups|
        ensures Occurs(log, groups[i].key) && groups[i].count == CountOf(log, groups[i].key)
      {
        assert IsGroup(groups[i], spilled, hashOf);
        HashTotalIsCount(spilled, groups[i].key, hashOf);
      }
      forall s | Occurs(log, s) ensures HasKey(groups, s) {
        assert HasHash(groups, hashOf(s), hashOf);
        var i :| 0 <= i < |groups| && hashOf(groups[i].key) == hashOf(s);
        assert IsGroup(groups[i], spilled, hashOf);
      }
      KeysDiffer(groups, hashOf);
    }
  }

  lemma SameHashSameKey(groups: seq<Counted>, s: Bytes, t: Bytes, hashOf: Bytes -> u64)
    requires Rising(groups, hashOf) && HasKey(groups, s) && HasKey(groups, t) && hashOf(s) == hashOf(t)
    ensures s == t
  {
    var i :| 0 <= i < |groups| && groups[i].key == s;
    var j :| 0 <= j < |groups| && groups[j].key == t;
    assert hashOf(groups[i].key) == hashOf(groups[j].key);
  }

  lemma KeysDiffer(groups: seq<Counted>, hashOf: Bytes -> u64)
    requires Rising(groups, hashOf)
    ensures forall i, j :: 0 <= i < j < |groups| ==> groups[i].key != groups[j].key
  {
    forall i, j | 0 <= i < j < |groups| ensures groups[i].key != groups[j].key {
      assert hashOf(groups[i].key) < hashOf(groups[j].key);
    }
  }

  /** A listing is determined by the counts: how the rows were split or ordered does not show. */
  lemma ListingsAgree(a: seq<Counted>, logA: seq<Counted>, b: seq<Counted>, logB: seq<Counted>)
    requires ListsStrings(a, logA) && ListsStrings(b, logB) && SameCounts(logA, logB)
    ensures multiset(a) == multiset(b)
  {
    forall g ensures g in a <==> g in b {
      if g in a {
        ListedToo(a, logA, b, logB, g);
      }
      if g in b {
        ListedToo(b, logB, a, logA, g);
      }
    }
    SameElements(a, b);
  }

  lemma ListedToo(a: seq<Counted>, logA: seq<Counted>, b: seq<Counted>, logB: seq<Counted>, g: Counted)
    requires ListsStrings(a, logA) && ListsStrings(b, logB) && SameCounts(logA, logB) && g in a
    ensures g in b
  {
    assert HasKey(b, g.key);
    var i :| 0 <= i < |b| && b[i].key == g.key;
    assert b[i] == g;
  }

  // ---- counting distinct hashes ----

  ghost function KeySet(log: seq<Counted>): set<Bytes> {
    set i | 0 <= i < |log| :: log[i].key
  }

  ghost function Image(keys: set<Bytes>, hashOf: Bytes -> u64): set<u64> {
    set s | s in keys :: hashOf(s)
  }

  lemma KeySetIsOccurs(log: seq<Counted>, s: Bytes)
    ensures s in KeySet(log) <==> Occurs(log, s)
  {
  }

  lemma {:induction false} ImageSize(keys: set<Bytes>, hashOf: Bytes -> u64)
    ensures |Image(keys, hashOf)| <= |keys|
    ensures |Image(keys, hashOf)| == |keys| <==>
      forall s, t :: s in keys && t in keys && hashOf(s) == hashOf(t) ==> s == t
  {
    if keys != {} {
      var x :| x in keys;
      var rest := keys - {x};
      ImageSize(rest, hashOf);
      assert Image(keys, hashOf) == Image(rest, hashOf) + {hashOf(x)};
      if hashOf(x) in Image(rest, hashOf) {
        assert Image(keys, hashOf) == Image(rest, hashOf);
        var y :| y in rest && hashOf(y) == hashOf(x);
      } else {
        assert forall y :: y in rest ==> hashOf(y) in Image(rest, hashOf);
      }
    }
  }

  lemma KeySetStep(log: seq<Counted>)
    requires log != []
    ensures KeySet(log) == KeySet(Init(log)) + {Last(log).key}
  {
    forall s ensures s in KeySet(log) <==> s in KeySet(Init(log)) + {Last(log).key} {
      KeySetIsOccurs(log, s);
      KeySetIsOccurs(Init(log), s);
      OccursAppend(Init(log), Last(log), s);
      assert log == Init(log) + [Last(log)];
    }
  }

  lemma {:induction false} RisingSize(groups: seq<Counted>, hashOf: Bytes -> u64)
    requires Rising(groups, hashOf)
    ensures |Image(KeySet(groups), hashOf)| == |groups|
  {
    if groups != [] {
      var rest, g := Init(groups), Last(groups);
      RisingSize(rest, hashOf);
      KeySetStep(groups);
      assert Image(KeySet(groups), hashOf) == Image(KeySet(rest), hashOf) + {hashOf(g.key)};
      assert hashOf(g.key) !in Image(KeySet(rest), hashOf);
    }
  }

  /** The number of groups is the number of distinct hashes, and of distinct strings exactly when none collide. */
  lemma GroupsCountHashes(groups: seq<Counted>, spilled: seq<Counted>, log: seq<Counted>, hashOf: Bytes -> u64)
    requires Grouped(groups, spilled, 0, 0, true, hashOf) && SameCounts(spilled, log)
    ensures |groups| == |Image(KeySet(log), hashOf)|
    ensures |groups| == |KeySet(log)| <==> InjectiveOn(log, hashOf)
  {
    RisingSize(groups, hashOf);
    ImageSize(KeySet(log), hashOf);
    forall s ensures s in KeySet(log) <==> Occurs(log, s) {
      KeySetIsOccurs(log, s);
    }
    SameImages(groups, spilled, log, hashOf);
  }

  lemma SameImages(groups: seq<Counted>, spilled: seq<Counted>, log: seq<Counted>, hashOf: Bytes -> u64)
    requires Grouped(groups, spilled, 0, 0, true, hashOf) && SameCounts(spilled, log)
    ensures Image(KeySet(groups), hashOf) == Image(KeySet(log), hashOf)
  {
    forall h | h in Image(KeySet(groups), hashOf) ensures h in Image(KeySet(log), hashOf) {
      var s :| s in KeySet(groups) && hashOf(s) == h;
      var i :| 0 <= i < |groups| && groups[i].key == s;
      assert IsGroup(groups[i], spilled, hashOf);
      KeySetIsOccurs(log, s);
    }
    forall h | h in Image(KeySet(log), hashOf) ensures h in Image(KeySet(groups), hashOf) {
      var s :| s in KeySet(log) && hashOf(s) == h;
      KeySetIsOccurs(log, s);
      assert HasHash(groups, h, hashOf);
      var i :| 0 <= i < |groups| && hashOf(groups[i].key) == h;
      assert groups[i].key in KeySet(groups);
    }
  }

  // ---- the ranges ----

  /** The start of range `w` of `p`. */
  function RangeStart(w: nat, p: nat): u64
    requires p > 0 && w <= p
  {
    SpanFits(w, p);
    w * (MAX_U64 / p)
  }

  lemma SpanFits(w: nat, p: nat)
    requires p > 0 && w <= p
    ensures 0 <= w * (MAX_U64 / p) <= MAX_U64
  {
    var span := MAX_U64 / p;
    assert p * span + MAX_U64 % p == MAX_U64;
    assert (p - w) * span >= 0 && w * span + (p - w) * span == p * span;
  }

  lemma RangesRise(w: nat, p: nat)
    requires p > 0 && w < p
    ensures RangeStart(w, p) <= RangeStart(w + 1, p)
  {
    assert (w + 1) * (MAX_U64 / p) == w * (MAX_U64 / p) + MAX_U64 / p;
  }

  /** The groups of range `w` of `p`; the last range has no upper end. */
  ghost predicate GroupsOfRange(part: seq<Counted>, w: nat, p: nat, log: seq<Counted>, hashOf: Bytes -> u64)
    requires w < p
  {
    match w == p - 1
    case true => Grouped(part, log, RangeStart(w, p), 0, true, hashOf)
    case false => Grouped(part, log, RangeStart(w, p), RangeStart(w + 1, p), false, hashOf)
  }

  /** Where range `w` ends; nothing is read from it for the last one. */
  function RangeEnd(w: nat, p: nat): (hi: u64)
    requires w < p
    ensures w == p - 1 || RangeStart(w, p) <= hi
  {
    RangesRise(w, p);
    if w == p - 1 then 0 else RangeStart(w + 1, p)
  }

  /** The ranges merged so far cover the hash space up to the next one. */
  ghost predicate RangesDone(parts: seq<seq<Counted>>, p: nat, log: seq<Counted>, hashOf: Bytes -> u64)
    requires p > 0 && |parts| <= p
  {
    match |parts| < p
    case true => Grouped(Flatten(parts), log, 0, RangeStart(|parts|, p), false, hashOf)
    case false => Grouped(Flatten(parts), log, 0, 0, true, hashOf)
  }

  lemma NoRangeYet(p: nat, log: seq<Counted>, hashOf: Bytes -> u64)
    requires p > 0
    ensures RangesDone([], p, log, hashOf)
  {
    assert RangeStart(0, p) == 0;
  }

  lemma OneMoreRange(parts: seq<seq<Counted>>, part: seq<Counted>, p: nat, log: seq<Counted>, hashOf: Bytes -> u64)
    requires |parts| < p && RangesDone(parts, p, log, hashOf) && GroupsOfRange(part, |parts|, p, log, hashOf)
    ensures RangesDone(parts + [part], p, log, hashOf)
  {
    var w := |parts|;
    RangesRise(w, p);
    assert Init(parts + [part]) == parts;
    GroupedAdjacent(Flatten(parts), part, log, 0, RangeStart(w, p), if w == p - 1 then 0 else RangeStart(w + 1, p),
                    w == p - 1, hashOf);
    if w == p - 1 {
      assert Grouped(Flatten(parts + [part]), log, 0, 0, true, hashOf);
    }
  }

  lemma ByTotalIsOrder()
    ensures StrictWeak(ByTotal)
  {
  }

  lemma OneMoreTop(tops: seq<seq<Counted>>, top: seq<Counted>, parts: seq<seq<Counted>>, part: seq<Counted>, k: nat)
    requires TopsOf(tops, parts, k, ByTotal) && Selects(multiset(top), multiset(part), k, ByTotal)
    ensures TopsOf(tops + [top], parts + [part], k, ByTotal)
  {
  }

  /** The first ranges are merged: their groups, the groups as read, and the k largest of those per range. */
  ghost predicate RangesMerged(parts: seq<seq<Counted>>, shown: seq<seq<Counted>>, tops: seq<seq<Counted>>, p: nat,
                               k: nat, spills: seq<Spill>, wholes: seq<Spill>, hashOf: Bytes -> u64)
    requires p > 0 && |parts| <= p
  {
    match RangesDone(parts, p, AllLog(wholes), hashOf)
    case false => false
    case true => SameTotals(Flatten(shown), Flatten(parts), spills == wholes) && TopsOf(tops, shown, k, ByTotal)
  }

  lemma OneMoreMerged(parts: seq<seq<Counted>>, shown: seq<seq<Counted>>, tops: seq<seq<Counted>>, part: seq<Counted>,
                      seen: seq<Counted>, top: seq<Counted>, p: nat, k: nat, spills: seq<Spill>, wholes: seq<Spill>,
                      hashOf: Bytes -> u64)
    requires p > 0 && |parts| < p && RangesMerged(parts, shown, tops, p, k, spills, wholes, hashOf)
    requires GroupsOfRange(part, |parts|, p, AllLog(wholes), hashOf)
    requires SameTotals(seen, part, spills == wholes) && Selects(multiset(top), multiset(seen), k, ByTotal)
    ensures RangesMerged(parts + [part], shown + [seen], tops + [top], p, k, spills, wholes, hashOf)
  {
    OneMoreRange(parts, part, p, AllLog(wholes), hashOf);
    OneMoreTop(tops, top, shown, seen, k);
    OneMoreShown(shown, seen, parts, part, spills == wholes);
  }

  /** One merge worker per range; each writes only its own partial, so their order does not matter. */
  method MergeRanges(spills: seq<Spill>, ghost wholes: seq<Spill>, p: nat, k: int, ghost hashOf: Bytes -> u64)
    returns (partials: seq<seq<Counted>>)
    requires SpillsOk(wholes, hashOf) && Stored(spills, wholes) && p > 0 && k > 0
    ensures exists parts, shown ::
      |parts| == p && RangesMerged(parts, shown, partials, p, k, spills, wholes, hashOf)
  {
    partials := [];
    ghost var parts: seq<seq<Counted>>, shown: seq<seq<Counted>> := [], [];
    NoneMerged(p, k, spills, wholes, hashOf);
    for w := 0 to p
      invariant |parts| == w && RangesMerged(parts, shown, partials, p, k, spills, wholes, hashOf)
    {
      var partial;
      ghost var part, seen;
      partial, part, seen := MergeNextRange(spills, wholes, w, p, k, hashOf, parts, shown, partials);
      partials, parts, shown := partials + [partial], parts + [part], shown + [seen];
    }
  }

  lemma NoneMerged(p: nat, k: nat, spills: seq<Spill>, wholes: seq<Spill>, hashOf: Bytes -> u64)
    requires p > 0
    ensures RangesMerged([], [], [], p, k, spills, wholes, hashOf)
  {
    NoRangeYet(p, AllLog(wholes), hashOf);
  }

  method MergeNthRange(spills: seq<Spill>, ghost wholes: seq<Spill>, w: nat, p: nat, k: int,
                       ghost hashOf: Bytes -> u64)
    returns (out: seq<Counted>)
    requires SpillsOk(wholes, hashOf) && Stored(spills, wholes) && w < p
    ensures exists groups, shown ::
      && GroupsOfRange(groups, w, p, AllLog(wholes), hashOf)
      && SameTotals(shown, groups, spills == wholes) && Emits(out, shown, k)
  {
    out := MergeRange(spills, wholes, RangeStart(w, p), RangeEnd(w, p), w == p - 1, k, hashOf);
    ghost var groups, shown :| Grouped(groups, AllLog(wholes), RangeStart(w, p), RangeEnd(w, p), w == p - 1, hashOf)
                               && SameTotals(shown, groups, spills == wholes) && Emits(out, shown, k);
    assert GroupsOfRange(groups, w, p, AllLog(wholes), hashOf);
  }

  method MergeNextRange(spills: seq<Spill>, ghost wholes: seq<Spill>, w: nat, p: nat, k: int,
                        ghost hashOf: Bytes -> u64, ghost parts: seq<seq<Counted>>, ghost shown: seq<seq<Counted>>,
                        ghost tops: seq<seq<Counted>>)
    returns (partial: seq<Counted>, ghost part: seq<Counted>, ghost seen: seq<Counted>)
    requires SpillsOk(wholes, hashOf) && Stored(spills, wholes) && w < p && k > 0
    requires |parts| == w && RangesMerged(parts, shown, tops, p, k, spills, wholes, hashOf)
    ensures RangesMerged(parts + [part], shown + [seen], tops + [partial], p, k, spills, wholes, hashOf)
  {
    partial := MergeNthRange(spills, wholes, w, p, k, hashOf);
    part, seen :| GroupsOfRange(part, w, p, AllLog(wholes), hashOf)
                  && SameTotals(seen, part, spills == wholes) && Emits(partial, seen, k);
    OneMoreMerged(parts, shown, tops, part, seen, partial, p, k, spills, wholes, hashOf);
  }

  lemma OneMoreShown(shown: seq<seq<Counted>>, seen: seq<Counted>, parts: seq<seq<Counted>>, part: seq<Counted>,
                     exact: bool)
    requires SameTotals(Flatten(shown), Flatten(parts), exact) && SameTotals(seen, part, exact)
    ensures SameTotals(Flatten(shown + [seen]), Flatten(parts + [part]), exact)
  {
    assert Init(shown + [seen]) == shown && Init(parts + [part]) == parts;
  }

  /** The k largest of the partial lists, smallest first. */
  method CombinePartials(partials: seq<seq<Counted>>, k: nat) returns (out: seq<Counted>)
    requires k > 0
    ensures Selects(multiset(out), multiset(Flatten(partials)), k, ByTotal) && WorstFirst(out, ByTotal)
  {
    ByTotalIsOrder();
    var heap := new BoundedHeap(k, ByTotal);
    for w := 0 to |partials|
      invariant heap.Valid() && fresh(heap) && heap.k == k && heap.better == ByTotal
      invariant heap.seen == Flatten(partials[..w])
    {
      OfferAll(heap, partials[w]);
      assert Init(partials[..w + 1]) == partials[..w];
    }
    assert partials[..|partials|] == partials;
    out := heap.Drain();
  }

  method OfferAll(heap: BoundedHeap<Counted>, items: seq<Counted>)
    requires heap.Valid()
    modifies heap
    ensures heap.Valid() && heap.seen == old(heap.seen) + items
  {
    for i := 0 to |items|
      invariant heap.Valid() && heap.seen == old(heap.seen) + items[..i]
    {
      heap.Offer(items[i]);
      assert items[..i + 1] == items[..i] + [items[i]];
    }
    assert items[..|items|] == items;
  }

  // ---- the logs of all threads ----

  lemma {:induction false} FlattenGrow(logs: seq<seq<Counted>>, t: nat, more: seq<Counted>, s: Bytes)
    requires t < |logs|
    ensures CountOf(Flatten(logs[t := logs[t] + more]), s) == CountOf(Flatten(logs), s) + CountOf(more, s)
    ensures Occurs(Flatten(logs[t := logs[t] + more]), s) <==> Occurs(Flatten(logs), s) || Occurs(more, s)
  {
    var logs' := logs[t := logs[t] + more];
    CountConcat(Flatten(Init(logs)), Last(logs), s);
    OccursConcat(Flatten(Init(logs)), Last(logs), s);
    CountConcat(Flatten(Init(logs')), Last(logs'), s);
    OccursConcat(Flatten(Init(logs')), Last(logs'), s);
    if t == |logs| - 1 {
      assert Init(logs') == Init(logs);
      CountConcat(Last(logs), more, s);
      OccursConcat(Last(logs), more, s);
    } else {
      assert Init(logs') == Init(logs)[t := logs[t] + more];
      FlattenGrow(Init(logs), t, more, s);
    }
  }

  /** Rows may be counted on any thread. */
  lemma CountedAnywhere(logs: seq<seq<Counted>>, log: seq<Counted>, t: nat, more: seq<Counted>)
    requires t < |logs| && SameCounts(Flatten(logs), log)
    ensures SameCounts(Flatten(logs[t := logs[t] + more]), log + more)
  {
    forall s
      ensures CountOf(Flatten(logs[t := logs[t] + more]), s) == CountOf(log + more, s)
      ensures Occurs(Flatten(logs[t := logs[t] + more]), s) <==> Occurs(log + more, s)
    {
      FlattenGrow(logs, t, more, s);
      CountConcat(log, more, s);
      OccursConcat(log, more, s);
    }
  }

  lemma {:induction false} NothingCounted(logs: seq<seq<Counted>>)
    requires forall t :: 0 <= t < |logs| ==> logs[t] == []
    ensures Flatten(logs) == []
  {
    if logs != [] {
      NothingCounted(Init(logs));
    }
  }

  /** The spill holds a thread's whole log. */
  ghost predicate SpillHolds(sp: Spill, log: seq<Counted>, hashOf: Bytes -> u64) {
    SpillOk(sp, hashOf) && SortedByHash(sp.entries) && SameCounts(SpillLog(sp), log)
  }

  lemma {:induction false} SpillsHold(spills: seq<Spill>, logs: seq<seq<Counted>>, hashOf: Bytes -> u64)
    requires |spills| == |logs| && forall t :: 0 <= t < |spills| ==> SpillHolds(spills[t], logs[t], hashOf)
    ensures SameCounts(AllLog(spills), Flatten(logs))
  {
    if spills != [] {
      SpillsHold(Init(spills), Init(logs), hashOf);
      assert SpillHolds(Last(spills), Last(logs), hashOf);
      forall s
        ensures CountOf(AllLog(spills), s) == CountOf(Flatten(logs), s)
        ensures Occurs(AllLog(spills), s) <==> Occurs(Flatten(logs), s)
      {
        CountConcat(AllLog(Init(spills)), SpillLog(Last(spills)), s);
        OccursConcat(AllLog(Init(spills)), SpillLog(Last(spills)), s);
        CountConcat(Flatten(Init(logs)), Last(logs), s);
        OccursConcat(Flatten(Init(logs)), Last(logs), s);
      }
    }
  }

  lemma EmptyActiveHolds(sp: Spill, hashOf: Bytes -> u64, log: seq<Counted>)
    requires Ledger(map[], sp, hashOf, log) && SortedByHash(sp.entries)
    ensures SpillHolds(sp, log, hashOf)
  {
    OpenLedger(map[], sp, hashOf, log);
    forall s ensures CountOf(SpillLog(sp), s) == CountOf(log, s) {
      assert ActiveCount(map[], s) == 0;
    }
  }

  // ---- the aggregator ----

  class RadixHashCountStr {
    const hashOf: Bytes -> u64
    const threads: seq<HcThread>
    ghost const repr: set<object>           // the threads and their arenas
    ghost var logs: seq<seq<Counted>>       // what each thread has counted
    ghost var log: seq<Counted>             // everything counted, in order

    ghost predicate Arranged()
      reads this
    {
      && |threads| == |logs| && threads != [] && this !in repr
      && (forall t :: 0 <= t < |threads| ==> threads[t] in repr && threads[t].arena in repr)
      && (forall t, u :: 0 <= t < u < |threads| ==> threads[t] != threads[u] && threads[t].arena != threads[u].arena)
    }

    ghost predicate Valid()
      reads this, repr
    {
      && Arranged()
      && SameCounts(Flatten(logs), log)
      && (forall t :: 0 <= t < |logs| ==> LogBytes(logs[t]) <= LogBytes(log))
      && forall t :: 0 <= t < |threads| ==> Sound(t)
    }

    ghost predicate Sound(t: nat)
      requires Arranged() && t < |threads|
      reads this, repr
    {
      threads[t].Valid() && threads[t].hashOf == hashOf && threads[t].log == logs[t]
    }

    /** Every active table has been flushed and every spill sorted. */
    ghost predicate Finalized()
      reads this, repr
    {
      Valid() && forall t :: 0 <= t < |threads| ==> Flushed(t)
    }

    ghost predicate Flushed(t: nat)
      requires Arranged() && t < |threads|
      reads this, repr
    {
      threads[t].active == map[] && SortedByHash(threads[t].spill.entries)
    }

    constructor (maxThreads: int, hashOf: Bytes -> u64)
      ensures Valid() && fresh(repr) && log == []
      ensures |threads| == (if maxThreads < 1 then 1 else maxThreads) && this.hashOf == hashOf
    {
      var n := if maxThreads < 1 then 1 else maxThreads;
      var ts;
      ghost var made;
      ts, made := NewThreads(n, hashOf);
      this.hashOf, threads, repr := hashOf, ts, made;
      logs, log := seq(n, _ => []), [];
      new;
      NothingYet(n);
    }

    lemma NothingYet(n: nat)
      requires n > 0 && this !in repr && AllNew(threads, repr, hashOf)
      requires |threads| == n && logs == seq(n, _ => []) && log == []
      ensures Valid()
    {
      NothingCounted(logs);
      forall t | 0 <= t < |threads| ensures Sound(t) {
        assert IsNewThread(threads[t], hashOf);
      }
    }

    /** Notes that thread `t` has counted more. */
    ghost method Note(t: nat, more: seq<Counted>)
      requires Arranged() && t < |threads| && SameCounts(Flatten(logs), log)
      requires forall u :: 0 <= u < |logs| ==> LogBytes(logs[u]) <= LogBytes(log)
      requires forall u :: 0 <= u < |threads| && u != t ==> Sound(u)
      requires threads[t].Valid() && threads[t].hashOf == hashOf && threads[t].log == logs[t] + more
      modifies this`logs, this`log
      ensures Valid() && log == old(log) + more
    {
      CountedAnywhere(logs, log, t, more);
      LogBytesConcat(logs[t], more);
      LogBytesConcat(log, more);
      logs, log := logs[t := logs[t] + more], log + more;
      forall u | 0 <= u < |threads| ensures Sound(u) {
        assert u != t ==> old(Sound(u));
      }
    }

    method IngestDictRG(tid: nat, idx: seq<nat>, dict: seq<Bytes>, valid: Mask, skip: nat)
      requires Valid() && tid < |threads| && Covers(valid, |idx|)
      requires forall d :: 0 <= d < |dict| ==> |dict[d]| <= HC_ARENA_BYTES
      modifies this`logs, this`log, repr
      ensures Valid() && log == old(log) + KeptRows(idx, dict, valid, skip, |idx|)
    {
      assert Sound(tid);
      threads[tid].IngestDictRG(idx, dict, valid, skip);
      forall u | 0 <= u < |threads| && u != tid ensures Sound(u) {
        assert old(Sound(u));
      }
      Note(tid, KeptRows(idx, dict, valid, skip, |idx|));
    }

    method IngestPlainRG(tid: nat, rows: seq<Bytes>, valid: Mask, skipEmpty: bool)
      requires Valid() && tid < |threads| && Covers(valid, |rows|)
      requires forall r :: 0 <= r < |rows| ==> |rows[r]| <= HC_ARENA_BYTES
      modifies this`logs, this`log, repr
      ensures Valid() && log == old(log) + KeptPlain(rows, valid, skipEmpty, |rows|)
    {
      assert Sound(tid);
      threads[tid].IngestPlainRG(rows, valid, skipEmpty);
      forall u | 0 <= u < |threads| && u != tid ensures Sound(u) {
        assert old(Sound(u));
      }
      Note(tid, KeptPlain(rows, valid, skipEmpty, |rows|));
    }

    method IngestKey(tid: nat, data: Bytes)
      requires Valid() && tid < |threads| && |data| <= HC_ARENA_BYTES
      modifies this`logs, this`log, repr
      ensures Valid() && log == old(log) + [Counted(data, 1)]
    {
      assert Sound(tid);
      threads[tid].Ingest(data, 1);
      forall u | 0 <= u < |threads| && u != tid ensures Sound(u) {
        assert old(Sound(u));
      }
      Note(tid, [Counted(data, 1)]);
    }

    method FinalizeOne(t: nat)
      requires Valid() && t < |threads|
      modifies threads[t]
      ensures Valid() && Flushed(t)
      ensures forall u :: 0 <= u < |threads| && u != t && old(Flushed(u)) ==> Flushed(u)
    {
      assert Sound(t);
      threads[t].Finalize();
      forall u | 0 <= u < |threads| && u != t ensures Sound(u) {
        assert old(Sound(u));
      }
    }

    /** Flushes and sorts every thread; the sorts touch disjoint threads. */
    method Finalize()
      requires Valid()
      modifies repr
      ensures Finalized()
    {
      for t := 0 to |threads|
        invariant Valid() && forall u :: 0 <= u < t ==> Flushed(u)
      {
        FinalizeOne(t);
      }
    }

    /** No thread has spilled 4 GiB of key bytes: every entry still names its own bytes. */
    ghost predicate SpillsFit()
      reads this, threads
    {
      forall t :: 0 <= t < |threads| ==> SpillFits(threads[t].spill)
    }

    /** Less than 4 GiB of ingested key bytes always fits. */
    lemma FewBytesFit()
      requires Valid()
      ensures LogBytes(log) < TWO_32 ==> SpillsFit()
    {
      forall t | 0 <= t < |threads| ensures LogBytes(log) < TWO_32 ==> SpillFits(threads[t].spill) {
        assert Sound(t);
      }
    }

    function Spills(): seq<Spill>
      reads threads
    {
      seq(|threads|, t requires 0 <= t < |threads| reads threads => threads[t].spill)
    }

    /** The spills with nothing cut off. */
    ghost function Wholes(): seq<Spill>
      reads threads
    {
      seq(|threads|, t requires 0 <= t < |threads| reads threads => threads[t].whole)
    }

    /** The whole spills account for everything counted; they are the stored ones if those fit. */
    lemma SpillsAccount()
      requires Finalized()
      ensures Stored(Spills(), Wholes()) && SpillsOk(Wholes(), hashOf) && SameCounts(AllLog(Wholes()), log)
      ensures SpillsFit() ==> Spills() == Wholes()
    {
      forall t | 0 <= t < |threads|
        ensures SpillHolds(Wholes()[t], logs[t], hashOf) && Spills()[t] == Cut(Wholes()[t])
        ensures SpillFits(threads[t].spill) ==> Spills()[t] == Wholes()[t]
      {
        assert Sound(t) && Flushed(t);
        EmptyActiveHolds(threads[t].whole, hashOf, logs[t]);
        if SpillFits(threads[t].spill) {
          CutNothing(threads[t].whole, hashOf);
        }
      }
      SpillsHold(Wholes(), logs, hashOf);
    }

    /**
     * One row per distinct hash with the exact total, in order of hash, or the k largest, largest first.
     * While the spills fit, the strings are right too: these are the counted strings, each exactly once with its
     * exact count, if and only if the hash separates the counted strings.
     */
    method EmitTopK(k: int) returns (result: seq<Counted>)
      requires Finalized()
      ensures ListsTotals(result, log, k, SpillsFit(), hashOf)
      ensures SpillsFit() && k <= 0 ==> Grouped(result, log, 0, 0, true, hashOf)
      ensures SpillsFit() && k <= 0 ==> (ListsStrings(result, log) <==> InjectiveOn(log, hashOf))
      ensures SpillsFit() && k > 0 ==> IsTopOfHashes(result, log, k, hashOf)
      ensures SpillsFit() && k > 0 && InjectiveOn(log, hashOf) ==> IsTopOfStrings(result, log, k)
    {
      SpillsAccount();
      var spills := Spills();
      ghost var spilled := AllLog(Wholes());
      result := TopOfSpills(spills, Wholes(), k, hashOf);
      ghost var groups, shown :| Grouped(groups, spilled, 0, 0, true, hashOf)
                                 && SameTotals(shown, groups, spills == Wholes()) && Lists(result, shown, k);
      GroupsListStrings(groups, spilled, log, hashOf);
      GroupsOfLog(groups, spilled, log, hashOf);
      assert SameTotals(shown, groups, SpillsFit());
    }

    /** The number of distinct hashes: the number of strings if and only if the hash separates them. */
    method CountDistinctGroups() returns (total: nat)
      requires Finalized()
      ensures total == |Image(KeySet(log), hashOf)|
      ensures total == |KeySet(log)| <==> InjectiveOn(log, hashOf)
    {
      SpillsAccount();
      var spills := Spills();
      ghost var groups, spilled := [], AllLog(Wholes());
      total := CountRanges(spills, Wholes(), |threads|, hashOf);
      groups :| Grouped(groups, spilled, 0, 0, true, hashOf) && total == |groups|;
      GroupsCountHashes(groups, spilled, log, hashOf);
    }
  }

  /** Threads that have counted nothing, with their own arenas. */
  ghost predicate AllNew(ts: seq<HcThread>, made: set<object>, hashOf: Bytes -> u64)
    reads made
  {
    && (forall t :: 0 <= t < |ts| ==> ts[t] in made && ts[t].arena in made && IsNewThread(ts[t], hashOf))
    && (forall t, u :: 0 <= t < u < |ts| ==> ts[t] != ts[u] && ts[t].arena != ts[u].arena)
  }

  method NewThreads(n: nat, hashOf: Bytes -> u64) returns (ts: seq<HcThread>, ghost made: set<object>)
    ensures |ts| == n && fresh(made) && AllNew(ts, made, hashOf)
  {
    ts, made := [], {};
    for i := 0 to n
      invariant |ts| == i && fresh(made) && AllNew(ts, made, hashOf)
    {
      var th := new HcThread(hashOf);
      OneMoreThread(ts, made, th, hashOf);
      ts := ts + [th];
      made := made + {th, th.arena};
    }
  }

  lemma OneMoreThread(ts: seq<HcThread>, made: set<object>, th: HcThread, hashOf: Bytes -> u64)
    requires AllNew(ts, made, hashOf) && IsNewThread(th, hashOf) && th !in made && th.arena !in made
    ensures AllNew(ts + [th], made + {th, th.arena}, hashOf)
  {
    var ts' := ts + [th];
    forall t | 0 <= t < |ts'| ensures ts'[t] in made + {th, th.arena} && ts'[t].arena in made + {th, th.arena} {
      assert t < |ts| ==> ts'[t] == ts[t];
    }
  }

  ghost predicate IsNewThread(th: HcThread, hashOf: Bytes -> u64)
    reads th, th.arena
  {
    th.Valid() && th.hashOf == hashOf && th.log == []
  }

  /** The merge over all spills: one range, or one range per thread when a limit is given. */
  method TopOfSpills(spills: seq<Spill>, ghost wholes: seq<Spill>, k: int, ghost hashOf: Bytes -> u64)
    returns (result: seq<Counted>)
    requires SpillsOk(wholes, hashOf) && Stored(spills, wholes)
    ensures exists groups, shown ::
      && Grouped(groups, AllLog(wholes), 0, 0, true, hashOf)
      && SameTotals(shown, groups, spills == wholes) && Lists(result, shown, k)
  {
    ghost var groups, shown;
    if k <= 0 || |spills| <= 1 {
      result := MergeRange(spills, wholes, 0, 0, true, k, hashOf);
      groups, shown :| Grouped(groups, AllLog(wholes), 0, 0, true, hashOf)
                       && SameTotals(shown, groups, spills == wholes) && Emits(result, shown, k);
    } else {
      var partials := MergeRanges(spills, wholes, |spills|, k, hashOf);
      ghost var parts, seen :| |parts| == |spills| && RangesMerged(parts, seen, partials, |spills|, k, spills, wholes,
                                                                   hashOf);
      groups, shown := Flatten(parts), Flatten(seen);
      result := CombinePartials(partials, k);
      ReverseSame(result, ByTotal);
      ByTotalIsOrder();
      CombineTopK(Reverse(result), partials, seen, k, ByTotal);
    }
    if k > 0 {
      ReverseSame(result, ByTotal);
      result := Reverse(result);
    }
    assert Lists(result, shown, k);
  }

  /**
   * One row per distinct hash in order of hash, or the k largest, with the exact totals;
   * the strings are those counted if the spills are `exact`.
   */
  ghost predicate ListsTotals(out: seq<Counted>, log: seq<Counted>, k: int, exact: bool, hashOf: Bytes -> u64) {
    exists groups, shown ::
      Grouped(groups, log, 0, 0, true, hashOf) && SameTotals(shown, groups, exact) && Lists(out, shown, k)
  }

  /** All of the groups, or the k largest, largest first. */
  ghost predicate Lists(out: seq<Counted>, groups: seq<Counted>, k: int) {
    match k > 0
    case false => out == groups
    case true => IsTopK(out, groups, k, ByTotal)
  }

  /** The k largest of one row per distinct hash. */
  ghost predicate IsTopOfHashes(out: seq<Counted>, log: seq<Counted>, k: nat, hashOf: Bytes -> u64) {
    exists groups :: Grouped(groups, log, 0, 0, true, hashOf) && IsTopK(out, groups, k, ByTotal)
  }

  /** The k largest of one row per distinct string. */
  ghost predicate IsTopOfStrings(out: seq<Counted>, log: seq<Counted>, k: nat) {
    exists groups :: ListsStrings(groups, log) && IsTopK(out, groups, k, ByTotal)
  }

  /** Counts the groups of one range. */
  method CountRange(spills: seq<Spill>, ghost wholes: seq<Spill>, lo: u64, hi: u64, last: bool,
                    ghost hashOf: Bytes -> u64)
    returns (n: nat)
    requires SpillsOk(wholes, hashOf) && Stored(spills, wholes) && (last || lo <= hi)
    ensures exists groups :: Grouped(groups, AllLog(wholes), lo, hi, last, hashOf) && n == |groups|
  {
    var cur, end := FindRange(spills, wholes, lo, hi, last, hashOf);
    ghost var from := cur;
    var have, curHash: u64 := false, 0;
    n := 0;
    ghost var groups: seq<Counted> := [];
    MergeStart(wholes, from, end, hashOf);
    while true
      invariant Cursors(spills, cur, end) && Cursors(wholes, cur, end)
      invariant Merging(wholes, from, cur, end, groups, hashOf)
      invariant n == |groups| && (have <==> groups != []) && (have ==> curHash == hashOf(Last(groups).key))
      decreases Left(cur, end)
    {
      LeftNonNegative(spills, cur, end);
      var mt := NextThread(spills, cur, end);
      if mt < 0 {
        break;
      }
      var h := spills[mt].entries[cur[mt]].hash;
      StoredEntry(spills, wholes, mt);
      StoredSmallest(spills, wholes, cur, end, mt);
      MergeStep(wholes, from, cur, end, groups, mt, hashOf);
      LeftStep(cur, end, mt);
      groups := Bump(groups, Entry(wholes[mt], cur[mt]), hashOf);
      cur := cur[mt := cur[mt] + 1];
      StoredCursors(spills, wholes, cur, end);
      if !have || h != curHash {
        n := n + 1;
        curHash, have := h, true;
      }
    }
    MergeEnd(wholes, from, cur, end, lo, hi, last, groups, hashOf);
  }

  /** Counts the groups range by range, for any number of ranges. */
  method CountRanges(spills: seq<Spill>, ghost wholes: seq<Spill>, p: nat, ghost hashOf: Bytes -> u64)
    returns (total: nat)
    requires SpillsOk(wholes, hashOf) && Stored(spills, wholes) && p > 0
    ensures exists groups :: Grouped(groups, AllLog(wholes), 0, 0, true, hashOf) && total == |groups|
  {
    var partial: seq<nat> := [];
    ghost var parts: seq<seq<Counted>> := [];
    NoRangeYet(p, AllLog(wholes), hashOf);
    for w := 0 to p
      invariant |partial| == |parts| == w && RangesDone(parts, p, AllLog(wholes), hashOf)
      invariant SumOf(partial) == |Flatten(parts)|
    {
      var n := CountRange(spills, wholes, RangeStart(w, p), RangeEnd(w, p), w == p - 1, hashOf);
      ghost var part :| Grouped(part, AllLog(wholes), RangeStart(w, p), RangeEnd(w, p), w == p - 1, hashOf)
                        && n == |part|;
      OneMoreRange(parts, part, p, AllLog(wholes), hashOf);
      OneMoreCount(partial, n, parts, part);
      partial, parts := partial + [n], parts + [part];
    }
    total := Sum(partial);
    ghost var groups := Flatten(parts);
    assert Grouped(groups, AllLog(wholes), 0, 0, true, hashOf) && total == |groups|;
  }

  method Sum(s: seq<nat>) returns (total: nat)
    ensures total == SumOf(s)
  {
    total := 0;
    for w := 0 to |s|
      invariant total == SumOf(s[..w])
    {
      assert Init(s[..w + 1]) == s[..w];
      total := total + s[w];
    }
    assert s[..|s|] == s;
  }

  lemma OneMoreCount(partial: seq<nat>, n: nat, parts: seq<seq<Counted>>, part: seq<Counted>)
    requires SumOf(partial) == |Flatten(parts)| && n == |part|
    ensures SumOf(partial + [n]) == |Flatten(parts + [part])|
  {
    assert Init(parts + [part]) == parts && Init(partial + [n]) == partial;
  }

  function SumOf(s: seq<nat>): nat {
    if s == [] then 0 else SumOf(Init(s)) + Last(s)
  }

  // ---- whole runs ----

  /** A row group as it reaches a thread. */
  datatype RowGroup =
    | Dict(idx: seq<nat>, dict: seq<Bytes>, valid: Mask, skip: nat)
    | Plain(rows: seq<Bytes>, valid: Mask, skipEmpty: bool)
    | Key(data: Bytes)
  {
    /** What the row group counts, row by row. */
    function Rows(): seq<Counted>
      requires Fits()
    {
      match this
      case Dict(idx, dict, valid, skip) => KeptRows(idx, dict, valid, skip, |idx|)
      case Plain(rows, valid, skipEmpty) => KeptPlain(rows, valid, skipEmpty, |rows|)
      case Key(data) => [Counted(data, 1)]
    }

    /** The masks cover the rows and every key fits the arena. */
    predicate Fits() {
      match this
      case Dict(idx, dict, valid, skip) =>
        Covers(valid, |idx|) && forall d :: 0 <= d < |dict| ==> |dict[d]| <= HC_ARENA_BYTES
      case Plain(rows, valid, skipEmpty) =>
        Covers(valid, |rows|) && forall r :: 0 <= r < |rows| ==> |rows[r]| <= HC_ARENA_BYTES
      case Key(data) => |data| <= HC_ARENA_BYTES
    }
  }

  /** A row group and the thread that ingests it. */
  datatype Batch = Batch(tid: nat, group: RowGroup)

  predicate RunOk(run: seq<Batch>, maxThreads: nat) {
    forall i :: 0 <= i < |run| ==> run[i].tid < maxThreads && run[i].group.Fits()
  }

  /** Every row of a run. */
  function RunRows(run: seq<Batch>, maxThreads: nat): seq<Counted>
    requires RunOk(run, maxThreads)
  {
    if run == [] then [] else RunRows(Init(run), maxThreads) + Last(run).group.Rows()
  }

  method IngestBatch(agg: RadixHashCountStr, b: Batch)
    requires agg.Valid() && b.tid < |agg.threads| && b.group.Fits()
    modifies agg`logs, agg`log, agg.repr
    ensures agg.Valid() && agg.log == old(agg.log) + b.group.Rows()
  {
    match b.group
    case Dict(idx, dict, valid, skip) => agg.IngestDictRG(b.tid, idx, dict, valid, skip);
    case Plain(rows, valid, skipEmpty) => agg.IngestPlainRG(b.tid, rows, valid, skipEmpty);
    case Key(data) => agg.IngestKey(b.tid, data);
  }

  /** Ingests a whole run and finalizes: wherever the flushes fell, the log is the rows of the run. */
  method CountRun(maxThreads: nat, hashOf: Bytes -> u64, run: seq<Batch>) returns (agg: RadixHashCountStr)
    requires maxThreads > 0 && RunOk(run, maxThreads)
    ensures agg.Finalized() && agg.hashOf == hashOf && agg.log == RunRows(run, maxThreads)
    ensures LogBytes(RunRows(run, maxThreads)) < TWO_32 ==> agg.SpillsFit()
  {
    agg := new RadixHashCountStr(maxThreads, hashOf);
    IngestRun(agg, run);
    FinalizeRun(agg);
  }

  method IngestRun(agg: RadixHashCountStr, run: seq<Batch>)
    requires agg.Valid() && agg.log == [] && RunOk(run, |agg.threads|)
    modifies agg`logs, agg`log, agg.repr
    ensures agg.Valid() && agg.log == RunRows(run, |agg.threads|)
  {
    for i := 0 to |run|
      invariant agg.Valid()
      invariant agg.log == RunRows(run[..i], |agg.threads|)
    {
      IngestBatch(agg, run[i]);
      NextBatchRows(run, i, |agg.threads|);
    }
    assert run[..|run|] == run;
  }

  lemma NextBatchRows(run: seq<Batch>, i: nat, maxThreads: nat)
    requires RunOk(run, maxThreads) && i < |run|
    ensures RunRows(run[..i + 1], maxThreads) == RunRows(run[..i], maxThreads) + run[i].group.Rows()
  {
    assert Init(run[..i + 1]) == run[..i];
  }

  method FinalizeRun(agg: RadixHashCountStr)
    requires agg.Valid()
    modifies agg.repr
    ensures agg.Finalized() && agg.log == old(agg.log)
    ensures LogBytes(agg.log) < TWO_32 ==> agg.SpillsFit()
  {
    agg.Finalize();
    agg.FewBytesFit();
  }

  /**
   * The same rows, however cut into row groups and spread over threads, give the same number of rows and the same
   * distinct count, and, unless some thread has spilled 4 GiB of key bytes, the same listing.
   */
  method CountTwice(threadsA: nat, threadsB: nat, hashOf: Bytes -> u64, runA: seq<Batch>, runB: seq<Batch>)
    returns (ghost fits: bool, a: seq<Counted>, b: seq<Counted>, nA: nat, nB: nat)
    requires threadsA > 0 && threadsB > 0 && RunOk(runA, threadsA) && RunOk(runB, threadsB)
    requires SameCounts(RunRows(runA, threadsA), RunRows(runB, threadsB))
    requires InjectiveOn(RunRows(runA, threadsA), hashOf)
    ensures nA == nB == |a| == |b| == |KeySet(RunRows(runA, threadsA))|
    ensures LogBytes(RunRows(runA, threadsA)) < TWO_32 && LogBytes(RunRows(runB, threadsB)) < TWO_32 ==> fits
    ensures fits ==> ListsStrings(a, RunRows(runA, threadsA)) && multiset(a) == multiset(b)
  {
    ghost var fitsA, fitsB;
    fitsA, a, nA := ListRun(threadsA, hashOf, runA);
    fitsB, b, nB := ListRun(threadsB, hashOf, runB);
    fits := fitsA && fitsB;
    SameKeySet(RunRows(runA, threadsA), RunRows(runB, threadsB));
    if fits {
      ListingsAgree(a, RunRows(runA, threadsA), b, RunRows(runB, threadsB));
    }
  }

  lemma SameKeySet(a: seq<Counted>, b: seq<Counted>)
    requires SameCounts(a, b)
    ensures KeySet(a) == KeySet(b)
  {
    forall s ensures s in KeySet(a) <==> s in KeySet(b) {
      KeySetIsOccurs(a, s);
      KeySetIsOccurs(b, s);
    }
  }

  /** Every string of a run with its count, and the number of strings. */
  method ListRun(maxThreads: nat, hashOf: Bytes -> u64, run: seq<Batch>)
    returns (ghost fits: bool, out: seq<Counted>, n: nat)
    requires maxThreads > 0 && RunOk(run, maxThreads)
    requires InjectiveOn(RunRows(run, maxThreads), hashOf)
    ensures n == |out| == |KeySet(RunRows(run, maxThreads))|
    ensures LogBytes(RunRows(run, maxThreads)) < TWO_32 ==> fits
    ensures fits ==> ListsStrings(out, RunRows(run, maxThreads))
  {
    var agg := CountRun(maxThreads, hashOf, run);
    fits := agg.SpillsFit();
    out := agg.EmitTopK(0);
    n := agg.CountDistinctGroups();
    TotalsSize(out, agg.log, fits, hashOf);
  }

  lemma TotalsSize(out: seq<Counted>, log: seq<Counted>, exact: bool, hashOf: Bytes -> u64)
    requires ListsTotals(out, log, 0, exact, hashOf)
    ensures |out| == |Image(KeySet(log), hashOf)|
  {
    var groups, shown :| Grouped(groups, log, 0, 0, true, hashOf) && SameTotals(shown, groups, exact)
                         && Lists(out, shown, 0);
    GroupsCountHashes(groups, log, log, hashOf);
  }
}
