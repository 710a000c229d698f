/** Rows of an integer and a string column, as the COUNT(DISTINCT int) GROUP BY string routes read them. */
module StrIntRows {
  import opened Bits
  import opened HashCountThread
  import opened Masks
  import opened Seqs

  datatype IntStr = IntStr(i: int, s: Bytes)

  /** Row `r` counts: kept, both columns valid, its index in the dictionary and not the skipped one. */
  predicate Counts(idx: seq<nat>, size: nat, keep: Mask, validInt: Mask, validStr: Mask, skip: int, r: nat)
    requires r < |idx|
  {
    Passes(keep, r) && Passes(validInt, r) && Passes(validStr, r) && idx[r] < size && idx[r] != skip
  }

  /** The (int, string) pairs of the rows that count, of a dictionary-encoded row group; -1 skips no index. */
  function KeptPairs(ints: seq<int>, idx: seq<nat>, dict: seq<Bytes>, keep: Mask, validInt: Mask, validStr: Mask,
                     skip: int, n: nat): seq<IntStr>
    requires n <= |idx| <= |ints|
  {
    if n == 0 then []
    else
      var rest := KeptPairs(ints, idx, dict, keep, validInt, validStr, skip, n - 1);
      if Counts(idx, |dict|, keep, validInt, validStr, skip, n - 1)
      then rest + [IntStr(ints[n - 1], dict[idx[n - 1]])] else rest
  }

  /** The same for a plain string column. */
  function KeptPlainPairs(ints: seq<int>, strs: seq<Bytes>, keep: Mask, validInt: Mask, validStr: Mask,
                          n: nat): seq<IntStr>
    requires n <= |strs| <= |ints|
  {
    if n == 0 then []
    else
      var rest := KeptPlainPairs(ints, strs, keep, validInt, validStr, n - 1);
      if Passes(keep, n - 1) && Passes(validInt, n - 1) && Passes(validStr, n - 1)
      then rest + [IntStr(ints[n - 1], strs[n - 1])] else rest
  }

  /** The ints that occur with string `s`. */
  ghost function DistinctInts(pairs: set<IntStr>, s: Bytes): set<int> {
    set p | p in pairs && p.s == s :: p.i
  }

  ghost function Strings(pairs: set<IntStr>): set<Bytes> {
    set p | p in pairs :: p.s
  }

  /** A map with one entry per string, giving the number of distinct ints it occurs with. */
  ghost predicate CountsDistinct(m: map<Bytes, int>, pairs: set<IntStr>) {
    && m.Keys == Strings(pairs)
    && forall s :: s in m ==> m[s] == |DistinctInts(pairs, s)|
  }

  /** A listing with each string once, and the number of distinct ints it occurs with. */
  ghost predicate ListsDistinct(out: seq<Counted>, pairs: set<IntStr>) {
    && (forall i, j :: 0 <= i < j < |out| ==> out[i].key != out[j].key)
    && (forall i :: 0 <= i < |out| ==>
          out[i].key in Strings(pairs) && out[i].count == |DistinctInts(pairs, out[i].key)|)
    && (forall s :: s in Strings(pairs) ==> exists i :: 0 <= i < |out| && out[i].key == s)
  }

  /** Two listings of the same pairs have the same entries. */
  lemma ListsDistinctAgree(a: seq<Counted>, b: seq<Counted>, pairs: set<IntStr>)
    requires ListsDistinct(a, pairs) && ListsDistinct(b, pairs)
    ensures multiset(a) == multiset(b)
  {
    forall g ensures g in a <==> g in b {
      if g in a {
        ListedToo(a, b, pairs, g);
      }
      if g in b {
        ListedToo(b, a, pairs, g);
      }
    }
    SameElements(a, b);
  }

  lemma ListedToo(a: seq<Counted>, b: seq<Counted>, pairs: set<IntStr>, g: Counted)
    requires ListsDistinct(a, pairs) && ListsDistinct(b, pairs) && g in a
    ensures g in b
  {
    var i :| 0 <= i < |b| && b[i].key == g.key;
    assert b[i] == g;
  }

  lemma OneMorePair(m: map<Bytes, int>, pairs: set<IntStr>, p: IntStr)
    requires CountsDistinct(m, pairs) && p !in pairs
    ensures CountsDistinct(m[p.s := (if p.s in m then m[p.s] else 0) + 1], pairs + {p})
  {
    var m', pairs' := m[p.s := (if p.s in m then m[p.s] else 0) + 1], pairs + {p};
    OneMore(pairs, p.i, p.s);
    assert IntStr(p.i, p.s) == p;
    InDistinct(pairs, p.i, p.s);
    if p.s !in m {
      NoInts(pairs, p.s);
    }
    assert |DistinctInts(pairs', p.s)| == |DistinctInts(pairs, p.s)| + 1;
    forall t | t in m' ensures m'[t] == |DistinctInts(pairs', t)| {
      assert t != p.s ==> DistinctInts(pairs', t) == DistinctInts(pairs, t);
    }
  }

  /** What one more pair changes. */
  lemma OneMore(pairs: set<IntStr>, v: int, s: Bytes)
    ensures Strings(pairs + {IntStr(v, s)}) == Strings(pairs) + {s}
    ensures DistinctInts(pairs + {IntStr(v, s)}, s) == DistinctInts(pairs, s) + {v}
    ensures forall t :: t != s ==> DistinctInts(pairs + {IntStr(v, s)}, t) == DistinctInts(pairs, t)
  {
    var pairs' := pairs + {IntStr(v, s)};
    forall t ensures t in Strings(pairs') <==> t in Strings(pairs) + {s} {
      InStrings(pairs, t);
      InStrings(pairs', t);
      assert IntStr(v, s) in pairs';
    }
    forall t, i ensures i in DistinctInts(pairs', t) <==> i in DistinctInts(pairs, t) || (t == s && i == v) {
      InDistinct(pairs, i, t);
      InDistinct(pairs', i, t);
    }
  }

  lemma InDistinct(pairs: set<IntStr>, i: int, s: Bytes)
    ensures i in DistinctInts(pairs, s) <==> IntStr(i, s) in pairs
  {
  }

  lemma InStrings(pairs: set<IntStr>, s: Bytes)
    ensures s in Strings(pairs) <==> exists p :: p in pairs && p.s == s
  {
  }

  lemma NoInts(pairs: set<IntStr>, s: Bytes)
    requires s !in Strings(pairs)
    ensures DistinctInts(pairs, s) == {}
  {
  }

  // ---- row groups and runs ----

  /** A row group as it reaches a thread, with non-null ints and strings marked by masks. */
  datatype RowGroup =
    | Dict(ints: seq<int>, idx: seq<nat>, dict: seq<Bytes>, keep: Mask, validInt: Mask)
    | DictSkip(ints: seq<int>, idx: seq<nat>, dict: seq<Bytes>, validInt: Mask, skip: nat)
    | Plain(ints: seq<int>, strs: seq<Bytes>, keep: Mask, validInt: Mask)
  {
    predicate Ok() {
      match this
      case Dict(ints, idx, dict, keep, validInt) => |idx| <= |ints| && Covers(keep, |idx|) && Covers(validInt, |idx|)
      case DictSkip(ints, idx, dict, validInt, skip) =>
        |idx| <= |ints| && Covers(validInt, |idx|) && |dict| <= 0xFFFF_FFFF
      case Plain(ints, strs, keep, validInt) => |strs| <= |ints| && Covers(keep, |strs|) && Covers(validInt, |strs|)
    }

    /** The pairs of the rows that count, when no string is null. */
    function Rows(): seq<IntStr>
      requires Ok()
    {
      match this
      case Dict(ints, idx, dict, keep, validInt) => KeptPairs(ints, idx, dict, keep, validInt, AllRows, -1, |idx|)
      case DictSkip(ints, idx, dict, validInt, skip) =>
        KeptPairs(ints, idx, dict, AllRows, validInt, AllRows, skip, |idx|)
      case Plain(ints, strs, keep, validInt) => KeptPlainPairs(ints, strs, keep, validInt, AllRows, |strs|)
    }
  }

  datatype Batch = Batch(tid: nat, group: RowGroup)

  predicate RunOk(run: seq<Batch>, maxThreads: nat) {
    forall i :: 0 <= i < |run| ==> run[i].tid < maxThreads && run[i].group.Ok()
  }

  function RunRows(run: seq<Batch>, maxThreads: nat): seq<IntStr>
    requires RunOk(run, maxThreads)
  {
    if run == [] then [] else RunRows(Init(run), maxThreads) + Last(run).group.Rows()
  }
}
