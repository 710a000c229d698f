/** COUNT(DISTINCT int) GROUP BY string: per-thread sets reached through cached pointers, and a skew-aware merge. */
module StrGroupDistinct {
  import opened Bits
  import opened DistinctUnion
  import opened HashCountThread
  import opened Masks
  import opened Seals
  import opened Seqs
  import opened StrIntRows

  const UINT32_MAX: nat := 0xFFFF_FFFF

  class I64Set {
    var elems: set<int>

    constructor ()
      ensures elems == {}
    {
      elems := {};
    }
  }

  // ---- one thread ----

  class StrGroups {
    var groups: map<Bytes, I64Set>
    ghost var pairs: set<IntStr>            // every (int, string) pair ingested

    ghost function Sets(): set<object>
      reads this
    {
      set s | s in groups :: groups[s]
    }

    ghost predicate Valid()
      reads this, Sets()
    {
      && groups.Keys == Strings(pairs)
      && (forall s, t :: s in groups && t in groups && groups[s] == groups[t] ==> s == t)
      && (forall s :: s in groups ==> groups[s].elems == DistinctInts(pairs, s))
    }

    constructor ()
      ensures Valid() && groups == map[] && pairs == {}
    {
      groups, pairs := map[], {};
    }

    /** Inserts through a pointer to the set of `s`. */
    method InsertAt(sp: I64Set, v: int, ghost s: Bytes)
      requires Valid() && s in groups && groups[s] == sp
      modifies this`pairs, sp
      ensures Valid() && pairs == old(pairs) + {IntStr(v, s)}
    {
      OneMore(pairs, v, s);
      sp.elems := sp.elems + {v};
      pairs := pairs + {IntStr(v, s)};
    }

    /** Finds or creates the set of `s`, inserts, and returns the set. */
    method Insert(s: Bytes, v: int) returns (sp: I64Set)
      requires Valid()
      modifies this, Sets()
      ensures Valid() && pairs == old(pairs) + {IntStr(v, s)}
      ensures s in groups && groups[s] == sp && fresh(Sets() - old(Sets()))
      ensures forall t :: t in old(groups) ==> t in groups && groups[t] == old(groups)[t]
    {
      if s in groups {
        sp := groups[s];
        InsertAt(sp, v, s);
      } else {
        sp := new I64Set();
        OneMore(pairs, v, s);
        NoInts(pairs, s);
        groups := groups[s := sp];
        sp.elems := sp.elems + {v};
        pairs := pairs + {IntStr(v, s)};
      }
    }

    /** Each cached pointer is the set of its dictionary entry's string. */
    ghost predicate Cached(dictToSet: seq<I64Set?>, dict: seq<Bytes>)
      reads this
    {
      && |dictToSet| == |dict|
      && forall d :: 0 <= d < |dict| && dictToSet[d] != null ==> dict[d] in groups && groups[dict[d]] == dictToSet[d]
    }

    /** One counted row of a dictionary-encoded row group. */
    method InsertDict(dictToSet: seq<I64Set?>, dict: seq<Bytes>, d: nat, v: int) returns (dictToSet': seq<I64Set?>)
      requires Valid() && Cached(dictToSet, dict) && d < |dict|
      modifies this, Sets()
      ensures Valid() && Cached(dictToSet', dict) && pairs == old(pairs) + {IntStr(v, dict[d])}
      ensures fresh(Sets() - old(Sets()))
    {
      dictToSet' := dictToSet;
      var sp := dictToSet[d];
      if sp == null {
        sp := Insert(dict[d], v);
        dictToSet' := dictToSet[d := sp];
      } else {
        InsertAt(sp, v, dict[d]);
      }
    }

    /** Ingests a dictionary-encoded row group under a keep mask. */
    method IngestDict(ints: seq<int>, idx: seq<nat>, dict: seq<Bytes>, keep: Mask, validInt: Mask)
      requires Valid() && |idx| <= |ints| && Covers(keep, |idx|) && Covers(validInt, |idx|)
      modifies this, Sets()
      ensures Valid() && fresh(Sets() - old(Sets()))
      ensures pairs == old(pairs) + Elems(KeptPairs(ints, idx, dict, keep, validInt, AllRows, -1, |idx|))
    {
      var dictToSet: seq<I64Set?> := seq(|dict|, _ => null);
      NothingKept(pairs);
      for r := 0 to |idx|
        invariant Valid() && Cached(dictToSet, dict) && fresh(Sets() - old(Sets()))
        invariant pairs == old(pairs) + Elems(KeptPairs(ints, idx, dict, keep, validInt, AllRows, -1, r))
      {
        KeptRow(old(pairs), ints, idx, dict, keep, validInt, -1, r);
        if Counts(idx, |dict|, keep, validInt, AllRows, -1, r) {
          dictToSet := InsertDict(dictToSet, dict, idx[r], ints[r]);
        }
      }
    }

    /**
     * Ingests a dictionary-encoded row group, dropping one dictionary index, and skipping a row
     * that repeats the last counted index and value.
     */
    method IngestDictSkip(ints: seq<int>, idx: seq<nat>, dict: seq<Bytes>, validInt: Mask, skip: nat)
      requires Valid() && |idx| <= |ints| && Covers(validInt, |idx|) && |dict| <= UINT32_MAX
      modifies this, Sets()
      ensures Valid() && fresh(Sets() - old(Sets()))
      ensures pairs == old(pairs) + Elems(KeptPairs(ints, idx, dict, AllRows, validInt, AllRows, skip, |idx|))
    {
      var dictToSet: seq<I64Set?> := seq(|dict|, _ => null);
      var prevDi: nat, prevV := UINT32_MAX, 0;
      NothingKept(pairs);
      for r := 0 to |idx|
        invariant Valid() && Cached(dictToSet, dict) && fresh(Sets() - old(Sets()))
        invariant prevDi < |dict| ==> IntStr(prevV, dict[prevDi]) in pairs
        invariant pairs == old(pairs) + Elems(KeptPairs(ints, idx, dict, AllRows, validInt, AllRows, skip, r))
      {
        KeptRow(old(pairs), ints, idx, dict, AllRows, validInt, skip, r);
        if Counts(idx, |dict|, AllRows, validInt, AllRows, skip, r) {
          var di, v := idx[r], ints[r];
          if !(di == prevDi && v == prevV) {
            dictToSet := InsertDict(dictToSet, dict, di, v);
            prevDi, prevV := di, v;
          }
        }
      }
    }

    /** One counted row of a plain row group: through the cached pointer while the string repeats. */
    method InsertPlain(cached: I64Set?, prev: Bytes, s: Bytes, v: int) returns (cached': I64Set?)
      requires Valid() && (cached != null ==> prev in groups && groups[prev] == cached)
      modifies this, Sets()
      ensures Valid() && s in groups && groups[s] == cached' && pairs == old(pairs) + {IntStr(v, s)}
      ensures fresh(Sets() - old(Sets()))
    {
      if cached == null || s != prev {
        cached' := Insert(s, v);
      } else {
        cached' := cached;
        InsertAt(cached, v, s);
      }
    }

    /** Ingests a plain row group, looking the string up only when it changes. */
    method IngestPlain(ints: seq<int>, strs: seq<Bytes>, keep: Mask, validInt: Mask)
      requires Valid() && |strs| <= |ints| && Covers(keep, |strs|) && Covers(validInt, |strs|)
      modifies this, Sets()
      ensures Valid() && fresh(Sets() - old(Sets()))
      ensures pairs == old(pairs) + Elems(KeptPlainPairs(ints, strs, keep, validInt, AllRows, |strs|))
    {
      var cached: I64Set?, prev: Bytes := null, [];
      NothingKept(pairs);
      for r := 0 to |strs|
        invariant Valid() && fresh(Sets() - old(Sets()))
        invariant cached != null ==> prev in groups && groups[prev] == cached
        invariant pairs == old(pairs) + Elems(KeptPlainPairs(ints, strs, keep, validInt, AllRows, r))
      {
        KeptPlainRow(old(pairs), ints, strs, keep, validInt, r);
        if Passes(keep, r) && Passes(validInt, r) {
          cached := InsertPlain(cached, prev, strs[r], ints[r]);
          prev := strs[r];
        }
      }
    }
  }

  lemma NothingKept(pairs: set<IntStr>)
    ensures pairs == pairs + Elems([])
  {
  }

  lemma ElemsSnoc<T>(s: seq<T>, x: T)
    ensures Elems(s + [x]) == Elems(s) + {x}
  {
  }

  lemma KeptRow(pairs: set<IntStr>, ints: seq<int>, idx: seq<nat>, dict: seq<Bytes>, keep: Mask, validInt: Mask,
                skip: int, r: nat)
    requires r < |idx| <= |ints|
    ensures pairs + Elems(KeptPairs(ints, idx, dict, keep, validInt, AllRows, skip, r + 1))
         == pairs + Elems(KeptPairs(ints, idx, dict, keep, validInt, AllRows, skip, r))
            + (if Counts(idx, |dict|, keep, validInt, AllRows, skip, r) then {IntStr(ints[r], dict[idx[r]])} else {})
  {
    if Counts(idx, |dict|, keep, validInt, AllRows, skip, r) {
      ElemsSnoc(KeptPairs(ints, idx, dict, keep, validInt, AllRows, skip, r), IntStr(ints[r], dict[idx[r]]));
    }
  }

  lemma KeptPlainRow(pairs: set<IntStr>, ints: seq<int>, strs: seq<Bytes>, keep: Mask, validInt: Mask, r: nat)
    requires r < |strs| <= |ints|
    ensures pairs + Elems(KeptPlainPairs(ints, strs, keep, validInt, AllRows, r + 1))
         == pairs + Elems(KeptPlainPairs(ints, strs, keep, validInt, AllRows, r))
            + (if Passes(keep, r) && Passes(validInt, r) then {IntStr(ints[r], strs[r])} else {})
  {
    if Passes(keep, r) && Passes(validInt, r) {
      ElemsSnoc(KeptPlainPairs(ints, strs, keep, validInt, AllRows, r), IntStr(ints[r], strs[r]));
    }
  }

  // ---- indexing the groups of all threads ----

  ghost function UnionPairs(all: seq<set<IntStr>>): set<IntStr> {
    if all == [] then {} else UnionPairs(Init(all)) + Last(all)
  }

  /** For each string, the per-thread sets that hold its ints. */
  ghost predicate Indexes(idx: map<Bytes, seq<set<int>>>, pairs: set<IntStr>) {
    && idx.Keys == Strings(pairs)
    && forall s :: s in idx ==> UnionAll(idx[s]) == DistinctInts(pairs, s)
  }

  /** The pairs with string `s`. */
  ghost function OfString(pairs: set<IntStr>, s: Bytes): set<IntStr> {
    set p | p in pairs && p.s == s
  }

  lemma MoreOfString(pairs: set<IntStr>, more: set<IntStr>, s: Bytes)
    requires s in Strings(more)
    ensures Strings(pairs + OfString(more, s)) == Strings(pairs) + {s}
    ensures DistinctInts(pairs + OfString(more, s), s) == DistinctInts(pairs, s) + DistinctInts(more, s)
    ensures forall t :: t != s ==> DistinctInts(pairs + OfString(more, s), t) == DistinctInts(pairs, t)
  {
    var pairs' := pairs + OfString(more, s);
    InStrings(more, s);
    var q :| q in more && q.s == s;
    forall t ensures t in Strings(pairs') <==> t in Strings(pairs) + {s} {
      InStrings(pairs, t);
      InStrings(pairs', t);
      assert q in pairs';
    }
    forall t, i
      ensures i in DistinctInts(pairs', t) <==> i in DistinctInts(pairs, t) || (t == s && i in DistinctInts(more, s))
    {
      InDistinct(pairs, i, t);
      InDistinct(pairs', i, t);
      InDistinct(more, i, s);
    }
  }

  lemma IndexOne(idx: map<Bytes, seq<set<int>>>, pairs: set<IntStr>, more: set<IntStr>, s: Bytes)
    requires Indexes(idx, pairs) && s in Strings(more)
    ensures var sets := (if s in idx then idx[s] else []) + [DistinctInts(more, s)];
      Indexes(idx[s := sets], pairs + OfString(more, s))
  {
    var sets := (if s in idx then idx[s] else []) + [DistinctInts(more, s)];
    assert Init(sets) == if s in idx then idx[s] else [];
    assert UnionAll(sets) == UnionAll(Init(sets)) + DistinctInts(more, s);
    MoreOfString(pairs, more, s);
    if s !in idx {
      NoInts(pairs, s);
    }
  }

  /** Adds one thread's groups to the index. */
  method IndexThread(idx: map<Bytes, seq<set<int>>>, th: StrGroups, ghost pairs: set<IntStr>)
    returns (idx': map<Bytes, seq<set<int>>>)
    requires th.Valid() && Indexes(idx, pairs)
    ensures Indexes(idx', pairs + th.pairs)
  {
    idx' := idx;
    var todo := th.groups.Keys;
    ghost var done := pairs;
    while todo != {}
      invariant todo <= th.groups.Keys && Indexes(idx', done)
      invariant forall p :: p in done <==> p in pairs || (p in th.pairs && p.s !in todo)
      decreases |todo|
    {
      var s :| s in todo;
      IndexOne(idx', done, th.pairs, s);
      idx' := idx'[s := (if s in idx' then idx'[s] else []) + [th.groups[s].elems]];
      done, todo := done + OfString(th.pairs, s), todo - {s};
    }
    assert done == pairs + th.pairs by {
      forall p ensures p in done <==> p in pairs + th.pairs {
      }
    }
  }

  method IndexAll(perThread: seq<StrGroups>, ghost all: seq<set<IntStr>>) returns (idx: map<Bytes, seq<set<int>>>)
    requires |all| == |perThread| && forall t :: 0 <= t < |all| ==> perThread[t].Valid() && perThread[t].pairs == all[t]
    ensures Indexes(idx, UnionPairs(all))
  {
    idx := map[];
    for t := 0 to |perThread|
      invariant Indexes(idx, UnionPairs(all[..t]))
    {
      idx := IndexThread(idx, perThread[t], UnionPairs(all[..t]));
      assert Init(all[..t + 1]) == all[..t];
    }
    assert all[..|all|] == all;
  }

  /** The keys of the index in the order it yields them, with their sets. */
  method Groups(idx: map<Bytes, seq<set<int>>>) returns (keys: seq<Bytes>, sets: seq<seq<set<int>>>)
    ensures |keys| == |sets| && (forall g :: 0 <= g < |keys| ==> keys[g] in idx && sets[g] == idx[keys[g]])
    ensures forall g, h :: 0 <= g < h < |keys| ==> keys[g] != keys[h]
    ensures forall s :: s in idx ==> s in keys
  {
    keys, sets := [], [];
    var todo := idx.Keys;
    while todo != {}
      invariant todo <= idx.Keys && |keys| == |sets|
      invariant forall g :: 0 <= g < |keys| ==> keys[g] in idx && keys[g] !in todo && sets[g] == idx[keys[g]]
      invariant forall g, h :: 0 <= g < h < |keys| ==> keys[g] != keys[h]
      invariant forall s :: s in idx ==> s in todo || s in keys
      decreases |todo|
    {
      var s :| s in todo;
      keys, sets, todo := keys + [s], sets + [idx[s]], todo - {s};
    }
  }

  // ---- the merge ----

  /** Sends each group down one of the two routes: heavy if its cost exceeds a worker's balanced share. */
  method Route(sets: seq<seq<set<int>>>, threads: nat, workers: nat) returns (light: seq<nat>, heavy: seq<nat>)
    requires workers > 0
    ensures LightList(light, |sets|)
    ensures forall i :: 0 <= i < |heavy| ==> heavy[i] < |sets|
    ensures forall i :: i in light ==> i !in heavy
    ensures forall g: nat :: g < |sets| ==> g in light || g in heavy
  {
    light, heavy := [], [];
    var balanced := TotalCost(sets) / workers + 1;
    for g := 0 to |sets|
      invariant forall i :: 0 <= i < |light| ==> light[i] < g
      invariant forall i :: 0 <= i < |heavy| ==> heavy[i] < g
      invariant forall i, j :: 0 <= i < j < |light| ==> light[i] != light[j]
      invariant forall i :: i in light ==> i !in heavy
      invariant forall i: nat :: i < g ==> i in light || i in heavy
    {
      if threads > 1 && Cost(sets[g]) > balanced {
        heavy := heavy + [g];
      } else {
        light := light + [g];
      }
    }
  }

  /** A worker's stride visits each index once. */
  lemma {:induction false} Stride(p: nat, l: nat, n: nat)
    requires n > 0 && p <= l < p + n && Rem(l, n) == Rem(p, n)
    ensures l == p
  {
    if p >= n {
      Stride(p - n, l - n, n);
    }
  }

  /** The light groups as positions of the group list: in range and without repetition. */
  ghost predicate LightList(light: seq<nat>, n: nat) {
    && (forall l :: 0 <= l < |light| ==> light[l] < n)
    && (forall i, j :: 0 <= i < j < |light| ==> light[i] != light[j])
  }

  /** Worker w has passed the indexes w, w + nw, ... below its position. */
  ghost predicate Positions(pos: seq<nat>, n: nat, done: set<nat>) {
    && pos != []
    && (forall w :: 0 <= w < |pos| ==> Rem(pos[w], |pos|) == w)
    && (forall l: nat :: l in done <==> l < n && l < pos[Rem(l, |pos|)])
  }

  lemma PositionsStart(nw: nat, n: nat)
    requires nw > 0
    ensures Positions(seq(nw, w requires 0 <= w < nw => w), n, {})
  {
    forall l: nat ensures Rem(l, nw) <= l {
      RemAtMost(l, nw);
    }
  }

  lemma {:induction false} RemAtMost(x: nat, n: nat)
    requires n > 0
    ensures Rem(x, n) <= x
  {
    if x >= n {
      RemAtMost(x - n, n);
    }
  }

  lemma PositionsStep(pos: seq<nat>, n: nat, done: set<nat>, w: nat)
    requires Positions(pos, n, done) && w < |pos| && pos[w] < n
    ensures pos[w] !in done && Positions(pos[w := pos[w] + |pos|], n, done + {pos[w]})
  {
    var p, nw := pos[w], |pos|;
    var pos' := pos[w := p + nw];
    assert Rem(p + nw, nw) == Rem(p, nw);
    forall l: nat ensures l in done + {p} <==> l < n && l < pos'[Rem(l, nw)] {
      if Rem(l, nw) == w && p <= l < p + nw {
        Stride(p, l, nw);
      }
    }
  }

  /** A light group is counted once its worker has passed it, and untouched before; other groups stay as they were. */
  ghost predicate LightState(light: seq<nat>, done: set<nat>, cells: seq<seq<set<int>>>, counts: seq<nat>,
                             cells0: seq<seq<set<int>>>, counts0: seq<nat>)
    requires LightList(light, |cells0|) && |counts0| == |cells0|
  {
    && |cells| == |counts| == |cells0|
    && (forall l: nat :: l < |light| && l in done ==> counts[light[l]] == |UnionAll(cells0[light[l]])|)
    && (forall l: nat :: l < |light| && l !in done ==> cells[light[l]] == cells0[light[l]])
    && (forall g: nat :: g < |counts0| && g !in light ==> counts[g] == counts0[g])
  }

  lemma LightStep(light: seq<nat>, done: set<nat>, cells: seq<seq<set<int>>>, counts: seq<nat>,
                  cells0: seq<seq<set<int>>>, counts0: seq<nat>, p: nat, n: nat, left: seq<set<int>>)
    requires LightList(light, |cells0|) && |counts0| == |cells0|
    requires LightState(light, done, cells, counts, cells0, counts0)
    requires p < |light| && p !in done && n == |UnionAll(cells0[light[p]])|
    ensures LightState(light, done + {p}, cells[light[p] := left], counts[light[p] := n], cells0, counts0)
  {
  }

  /** The light phase's invariant, folded. */
  ghost predicate LightInv(light: seq<nat>, pos: seq<nat>, done: set<nat>, cells: seq<seq<set<int>>>, counts: seq<nat>,
                           cells0: seq<seq<set<int>>>, counts0: seq<nat>) {
    forall seal: Seal :: LightOpen(seal, light, pos, done, cells, counts, cells0, counts0)
  }

  ghost predicate LightOpen(seal: Seal, light: seq<nat>, pos: seq<nat>, done: set<nat>, cells: seq<seq<set<int>>>,
                            counts: seq<nat>, cells0: seq<seq<set<int>>>, counts0: seq<nat>) {
    && LightList(light, |cells0|) && |counts0| == |cells0|
    && Positions(pos, |light|, done)
    && LightState(light, done, cells, counts, cells0, counts0)
  }

  lemma CloseLight(light: seq<nat>, pos: seq<nat>, done: set<nat>, cells: seq<seq<set<int>>>, counts: seq<nat>,
                   cells0: seq<seq<set<int>>>, counts0: seq<nat>)
    requires LightOpen(Seal, light, pos, done, cells, counts, cells0, counts0)
    ensures LightInv(light, pos, done, cells, counts, cells0, counts0)
  {
    forall seal: Seal ensures LightOpen(seal, light, pos, done, cells, counts, cells0, counts0) {
      assert seal == Seal;
    }
  }

  lemma LightStart(light: seq<nat>, nw: nat, cells0: seq<seq<set<int>>>, counts0: seq<nat>)
    requires nw > 0 && |cells0| == |counts0| && LightList(light, |cells0|)
    ensures LightInv(light, seq(nw, w requires 0 <= w < nw => w), {}, cells0, counts0, cells0, counts0)
  {
    PositionsStart(nw, |light|);
    CloseLight(light, seq(nw, w requires 0 <= w < nw => w), {}, cells0, counts0, cells0, counts0);
  }

  /** Some worker with work left takes its next group. */
  lemma LightNext(light: seq<nat>, pos: seq<nat>, done: set<nat>, cells: seq<seq<set<int>>>, counts: seq<nat>,
                  cells0: seq<seq<set<int>>>, counts0: seq<nat>, w: nat, n: nat, left: seq<set<int>>)
    requires LightInv(light, pos, done, cells, counts, cells0, counts0)
    requires w < |pos| && pos[w] < |light|
    ensures pos[w] !in done && |cells| == |counts| == |cells0| && light[pos[w]] < |cells0|
    ensures cells[light[pos[w]]] == cells0[light[pos[w]]]
    ensures n == |UnionAll(cells0[light[pos[w]]])| ==>
      LightInv(light, pos[w := pos[w] + |pos|], done + {pos[w]}, cells[light[pos[w]] := left],
               counts[light[pos[w]] := n], cells0, counts0)
  {
    assert LightOpen(Seal, light, pos, done, cells, counts, cells0, counts0);
    var p := pos[w];
    PositionsStep(pos, |light|, done, w);
    if n == |UnionAll(cells0[light[p]])| {
      LightStep(light, done, cells, counts, cells0, counts0, p, n, left);
      CloseLight(light, pos[w := p + |pos|], done + {p}, cells[light[p] := left], counts[light[p] := n],
                 cells0, counts0);
    }
  }

  lemma LightEnd(light: seq<nat>, pos: seq<nat>, done: set<nat>, cells: seq<seq<set<int>>>, counts: seq<nat>,
                 cells0: seq<seq<set<int>>>, counts0: seq<nat>)
    requires LightInv(light, pos, done, cells, counts, cells0, counts0)
    requires forall w :: 0 <= w < |pos| ==> pos[w] >= |light|
    ensures |counts| == |counts0| == |cells0| && LightList(light, |cells0|)
    ensures forall g :: g in light ==> counts[g] == |UnionAll(cells0[g])|
    ensures forall g: nat :: g < |counts0| && g !in light ==> counts[g] == counts0[g]
  {
    assert LightOpen(Seal, light, pos, done, cells, counts, cells0, counts0);
    forall g | g in light ensures counts[g] == |UnionAll(cells0[g])| {
      var l: nat :| l < |light| && light[l] == g;
      assert pos[Rem(l, |pos|)] >= |light|;
      assert l in done;
    }
  }

  /**
   * Workers take every nw-th light group; they run interleaved in any order.
   * Counting a group leaves its sets moved-from.
   */
  method CountLight(light: seq<nat>, nw: nat, cells0: seq<seq<set<int>>>, counts0: seq<nat>) returns (counts: seq<nat>)
    requires nw > 0 && |cells0| == |counts0| && LightList(light, |cells0|)
    ensures |counts| == |counts0|
    ensures forall g :: g in light ==> counts[g] == |UnionAll(cells0[g])|
    ensures forall g: nat :: g < |counts0| && g !in light ==> counts[g] == counts0[g]
  {
    var cells := cells0;
    counts := counts0;
    var pos: seq<nat> := seq(nw, w requires 0 <= w < nw => w);
    ghost var done: set<nat> := {};
    LightStart(light, nw, cells0, counts0);
    while exists w :: 0 <= w < nw && pos[w] < |light|
      invariant |pos| == nw && LightInv(light, pos, done, cells, counts, cells0, counts0)
      decreases Below(|light|) - done
    {
      var w: nat :| w < nw && pos[w] < |light|;
      var p := pos[w];
      LightNext(light, pos, done, cells, counts, cells0, counts0, w, 0, []);
      var n := UnionSize(cells[light[p]]);
      var left: seq<set<int>> := *;
      LightNext(light, pos, done, cells, counts, cells0, counts0, w, n, left);
      done := done + {p};
      counts, cells, pos := counts[light[p] := n], cells[light[p] := left], pos[w := p + nw];
    }
    LightEnd(light, pos, done, cells, counts, cells0, counts0);
  }

  /** The number of distinct values of every group, whatever the routing, the worker count and the interleaving. */
  method CountGroups(sets: seq<seq<set<int>>>, threads: nat, workers: nat, hash: int -> u64) returns (counts: seq<nat>)
    requires workers > 0
    ensures |counts| == |sets| && forall g :: 0 <= g < |sets| ==> counts[g] == |UnionAll(sets[g])|
  {
    var light, heavy := Route(sets, threads, workers);
    counts := seq(|sets|, _ => 0);
    for i := 0 to |heavy|
      invariant |counts| == |sets| && forall j :: 0 <= j < i ==> counts[heavy[j]] == |UnionAll(sets[heavy[j]])|
    {
      var n := UnionCountParallel(sets[heavy[i]], workers, hash);
      counts := counts[heavy[i] := n];
    }
    ghost var heavyCounts := counts;
    if light != [] {
      var nw := if workers < |light| then workers else |light|;
      counts := CountLight(light, nw, sets, counts);
    }
    forall g: nat | g < |sets| ensures counts[g] == |UnionAll(sets[g])| {
      if g !in light {
        assert g in heavy && counts[g] == heavyCounts[g];
        var j :| 0 <= j < |heavy| && heavy[j] == g;
      }
    }
  }

  /** One entry per string of any thread, with the number of distinct ints it occurs with over all threads. */
  method MergeStrGroupIntDistinct(perThread: seq<StrGroups>, nWorkers: int, hash: int -> u64,
                                  ghost all: seq<set<IntStr>>)
    returns (out: seq<Counted>)
    requires |all| == |perThread| && forall t :: 0 <= t < |all| ==> perThread[t].Valid() && perThread[t].pairs == all[t]
    ensures ListsDistinct(out, UnionPairs(all))
  {
    var workers := if nWorkers < 1 then 1 else nWorkers;
    var idx := IndexAll(perThread, all);
    var keys, sets := Groups(idx);
    var counts := CountGroups(sets, |perThread|, workers, hash);
    out := seq(|keys|, g requires 0 <= g < |keys| => Counted(keys[g], counts[g]));
    forall s | s in Strings(UnionPairs(all)) ensures exists g :: 0 <= g < |out| && out[g].key == s {
      assert s in idx;
      var g :| 0 <= g < |keys| && keys[g] == s;
      assert out[g].key == s;
    }
  }
}
