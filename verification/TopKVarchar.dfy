/** The k first strings of a dictionary-encoded column, over the dictionary entries that occur. */
module TopKVarchar {
  import opened Bits
  import opened Masks
  import opened TopK

  // ---- the order of strings ----

  /** Byte-wise lexicographic order. */
  predicate Less(a: Bytes, b: Bytes) {
    b != [] && (a == [] || a[0] < b[0] || (a[0] == b[0] && Less(a[1..], b[1..])))
  }

  lemma {:induction false} LessTotal(a: Bytes, b: Bytes)
    ensures !Less(a, b) && !Less(b, a) <==> a == b
  {
    if a != [] && b != [] && a[0] == b[0] {
      LessTotal(a[1..], b[1..]);
      assert a == [a[0]] + a[1..] && b == [b[0]] + b[1..];
    }
  }

  lemma {:induction false} LessAsymmetric(a: Bytes, b: Bytes)
    requires Less(a, b)
    ensures !Less(b, a)
  {
    if a != [] && a[0] == b[0] {
      LessAsymmetric(a[1..], b[1..]);
    }
  }

  lemma {:induction false} LessSplits(a: Bytes, b: Bytes, c: Bytes)
    requires Less(a, c)
    ensures Less(a, b) || Less(b, c)
  {
    if a != [] && b != [] && a[0] == b[0] == c[0] {
      LessSplits(a[1..], b[1..], c[1..]);
    }
  }

  /** Ascending keeps the smallest, descending the largest. */
  function Better(ascending: bool): (Bytes, Bytes) -> bool {
    (a: Bytes, b: Bytes) => if ascending then Less(a, b) else Less(b, a)
  }

  lemma BetterIsOrder(ascending: bool)
    ensures StrictWeak(Better(ascending))
  {
    var better := Better(ascending);
    forall a, b | better(a, b) ensures !better(b, a) {
      if ascending { LessAsymmetric(a, b); } else { LessAsymmetric(b, a); }
    }
    forall a, b, c | better(a, c) ensures better(a, b) || better(b, c) {
      if ascending { LessSplits(a, b, c); } else { LessSplits(c, b, a); }
    }
  }

  // ---- candidates ----

  /** The dictionary entries that are marked and not the skipped one. */
  function Candidates(dict: seq<Bytes>, used: seq<bool>, skip: nat, n: nat): seq<Bytes>
    requires n <= |dict| <= |used|
  {
    if n == 0 then []
    else
      var rest := Candidates(dict, used, skip, n - 1);
      if used[n - 1] && n - 1 != skip then rest + [dict[n - 1]] else rest
  }

  /** Entry `d` is the value of some valid row. */
  predicate IsUsed(indices: seq<nat>, valid: Mask, d: nat, n: nat)
    requires n <= |indices|
  {
    exists r :: 0 <= r < n && Passes(valid, r) && indices[r] == d
  }

  /** Which entries valid rows use. */
  function UsedEntries(size: nat, indices: seq<nat>, valid: Mask): seq<bool> {
    seq(size, (d: nat) => IsUsed(indices, valid, d, |indices|))
  }

  /** The marks of the entries that valid rows use. */
  method MarkUsed(size: nat, indices: seq<nat>, valid: Mask) returns (used: seq<bool>)
    requires Covers(valid, |indices|)
    ensures used == UsedEntries(size, indices, valid)
  {
    used := seq(size, _ => false);
    for r := 0 to |indices|
      invariant |used| == size && forall d :: 0 <= d < size ==> used[d] == IsUsed(indices, valid, d, r)
    {
      forall d: nat | d < size
        ensures IsUsed(indices, valid, d, r + 1) <==>
          IsUsed(indices, valid, d, r) || (Passes(valid, r) && indices[r] == d)
      {
      }
      if Passes(valid, r) {
        if indices[r] < size {
          used := used[indices[r] := true];
        }
      }
    }
  }

  /** The k best of the marked entries, best first; nothing without marks. */
  method TopKVarcharFromDictUsed(dict: seq<Bytes>, marks: Mask, skip: nat, ascending: bool, k: nat)
    returns (out: seq<Bytes>)
    requires marks.Rows? ==> |dict| <= |marks.bits|
    ensures |dict| == 0 || k == 0 || marks.AllRows? ==> out == []
    ensures |dict| > 0 && k > 0 && marks.Rows? ==>
      IsTopK(out, Candidates(dict, marks.bits, skip, |dict|), k, Better(ascending))
  {
    if |dict| == 0 || k == 0 || marks.AllRows? {
      return [];
    }
    BetterIsOrder(ascending);
    var heap := new BoundedHeap(k, Better(ascending));
    for d := 0 to |dict|
      invariant heap.Valid() && fresh(heap) && heap.k == k && heap.better == Better(ascending)
      invariant heap.seen == Candidates(dict, marks.bits, skip, d)
    {
      if marks.bits[d] && d != skip {
        heap.Offer(dict[d]);
      }
    }
    var worst := heap.Drain();
    ReverseSame(worst, Better(ascending));
    out := Reverse(worst);
  }

  /** Marks the used entries, then takes the k best of them. */
  method TopKVarcharFromDict(dict: seq<Bytes>, indices: seq<nat>, valid: Mask, skip: nat, ascending: bool, k: nat)
    returns (out: seq<Bytes>)
    requires Covers(valid, |indices|)
    ensures |dict| == 0 || k == 0 ==> out == []
    ensures |dict| > 0 && k > 0 ==>
      IsTopK(out, Candidates(dict, UsedEntries(|dict|, indices, valid), skip, |dict|), k, Better(ascending))
  {
    if |dict| == 0 || k == 0 {
      return [];
    }
    var marks := MarkUsed(|dict|, indices, valid);
    ghost var used := marks;
    if skip < |dict| {
      marks := marks[skip := false];
    }
    ClearedSkip(dict, used, skip, |dict|);
    BetterIsOrder(ascending);
    var heap := new BoundedHeap(k, Better(ascending));
    for d := 0 to |dict|
      invariant heap.Valid() && fresh(heap) && heap.k == k && heap.better == Better(ascending)
      invariant heap.seen == Candidates(dict, marks, |dict|, d)
    {
      if marks[d] {
        heap.Offer(dict[d]);
      }
    }
    var worst := heap.Drain();
    ReverseSame(worst, Better(ascending));
    out := Reverse(worst);
  }

  /** Clearing a mark and skipping its entry leave the same candidates. */
  lemma {:induction false} ClearedSkip(dict: seq<Bytes>, used: seq<bool>, skip: nat, n: nat)
    requires n <= |dict| <= |used|
    ensures Candidates(dict, if skip < |dict| then used[skip := false] else used, |dict|, n)
      == Candidates(dict, used, skip, n)
  {
    if n > 0 {
      ClearedSkip(dict, used, skip, n - 1);
    }
  }

  /** With a total order the top-k is one list: both functions return the same strings in the same order. */
  lemma TopKIsOneList(a: seq<Bytes>, b: seq<Bytes>, all: seq<Bytes>, k: nat, ascending: bool)
    requires IsTopK(a, all, k, Better(ascending)) && IsTopK(b, all, k, Better(ascending))
    ensures a == b
  {
    BetterIsOrder(ascending);
    assert |multiset(a)| == |a| && |multiset(b)| == |b|;
    forall i | 0 <= i < |a| ensures a[i] == b[i] {
      TopKUnique(a, b, all, k, Better(ascending), i);
      LessTotal(a[i], b[i]);
    }
  }

  /** On the marks it computes itself, the second function repeats the first. */
  method BothWays(dict: seq<Bytes>, indices: seq<nat>, valid: Mask, skip: nat, ascending: bool, k: nat)
    returns (a: seq<Bytes>, b: seq<Bytes>)
    requires Covers(valid, |indices|)
    ensures a == b
  {
    a := TopKVarcharFromDict(dict, indices, valid, skip, ascending, k);
    var marks := MarkUsed(|dict|, indices, valid);
    b := TopKVarcharFromDictUsed(dict, Rows(marks), skip, ascending, k);
    if |dict| > 0 && k > 0 {
      TopKIsOneList(a, b, Candidates(dict, marks, skip, |dict|), k, ascending);
    }
  }
}
