/** One thread's side of COUNT(*) GROUP BY string: a bounded active table over a reused arena, and its spill. */
module HashCountThread {
  import opened Bits
  import opened Masks
  import opened Seals
  import opened Seqs

  const HC_ACTIVE_CAP: nat := 16384
  const HC_ARENA_BYTES: nat := 4194304

  /** An active entry: a view of the arena and the count of the key it shows. */
  datatype View = View(off: nat, len: nat, count: int)

  /** A flushed entry: the key's hash, where its bytes are in the spill, and a count. */
  datatype HcEnt = HcEnt(hash: u64, off: nat, len: nat, count: int)

  /** A flat spill: entries that index a byte buffer. */
  datatype Spill = Spill(entries: seq<HcEnt>, sbytes: Bytes)

  // ---- what was counted ----

  /** An ingested key with the count it brings. */
  datatype Counted = Counted(key: Bytes, count: int)

  function CountOf(log: seq<Counted>, s: Bytes): int {
    if log == [] then 0 else CountOf(Init(log), s) + (if Last(log).key == s then Last(log).count else 0)
  }

  ghost predicate Occurs(log: seq<Counted>, s: Bytes) {
    exists i :: 0 <= i < |log| && log[i].key == s
  }

  lemma {:induction false} CountConcat(a: seq<Counted>, b: seq<Counted>, s: Bytes)
    ensures CountOf(a + b, s) == CountOf(a, s) + CountOf(b, s)
  {
    if b == [] {
      assert a + b == a;
    } else {
      CountConcat(a, Init(b), s);
      assert Init(a + b) == a + Init(b);
    }
  }

  /** The logs count the same keys the same number of times. */
  ghost predicate SameCounts(a: seq<Counted>, b: seq<Counted>) {
    forall s :: CountOf(a, s) == CountOf(b, s) && (Occurs(a, s) <==> Occurs(b, s))
  }

  ghost predicate Positive(log: seq<Counted>) {
    forall i :: 0 <= i < |log| ==> log[i].count > 0
  }

  /** In a log of positive counts, the keys that occur are those with a positive total. */
  lemma {:induction false} PositiveOccurs(log: seq<Counted>, s: Bytes)
    requires Positive(log)
    ensures CountOf(log, s) >= 0
    ensures Occurs(log, s) <==> CountOf(log, s) > 0
  {
    if log != [] {
      PositiveOccurs(Init(log), s);
      assert log == Init(log) + [Last(log)];
      OccursAppend(Init(log), Last(log), s);
    }
  }

  lemma OccursConcat(a: seq<Counted>, b: seq<Counted>, s: Bytes)
    ensures Occurs(a + b, s) <==> Occurs(a, s) || Occurs(b, s)
  {
    if Occurs(a, s) {
      var i :| 0 <= i < |a| && a[i].key == s;
      assert (a + b)[i].key == s;
    }
    if Occurs(b, s) {
      var i :| 0 <= i < |b| && b[i].key == s;
      assert (a + b)[|a| + i].key == s;
    }
  }

  /** Positive logs with equal totals can replace each other at the end of a log. */
  lemma SameCountsAfter(log: seq<Counted>, a: seq<Counted>, b: seq<Counted>)
    requires Positive(a) && Positive(b) && forall s :: CountOf(a, s) == CountOf(b, s)
    ensures SameCounts(log + a, log + b)
  {
    forall s ensures CountOf(log + a, s) == CountOf(log + b, s) && (Occurs(log + a, s) <==> Occurs(log + b, s)) {
      CountConcat(log, a, s);
      CountConcat(log, b, s);
      OccursConcat(log, a, s);
      OccursConcat(log, b, s);
      PositiveOccurs(a, s);
      PositiveOccurs(b, s);
    }
  }

  /** The bytes of all keys of a log. */
  function LogBytes(log: seq<Counted>): nat {
    if log == [] then 0 else LogBytes(Init(log)) + |Last(log).key|
  }

  lemma {:induction false} LogBytesConcat(a: seq<Counted>, b: seq<Counted>)
    ensures LogBytes(a + b) == LogBytes(a) + LogBytes(b)
  {
    if b == [] {
      assert a + b == a;
    } else {
      LogBytesConcat(a, Init(b));
      assert Init(a + b) == a + Init(b);
    }
  }

  lemma LogBytesAppend(log: seq<Counted>, c: Counted)
    ensures LogBytes(log + [c]) == LogBytes(log) + |c.key|
  {
    assert Init(log + [c]) == log;
  }

  // ---- rows of a dictionary-encoded row group ----

  /** The keys of the rows that count, one by one: valid, with an index in the dictionary that is not skipped. */
  function KeptRows(idx: seq<nat>, dict: seq<Bytes>, valid: Mask, skip: nat, n: nat): (r: seq<Counted>)
    requires n <= |idx|
    ensures Positive(r)
  {
    if n == 0 then []
    else
      var rest, d := KeptRows(idx, dict, valid, skip, n - 1), idx[n - 1];
      if Passes(valid, n - 1) && d < |dict| && d != skip then rest + [Counted(dict[d], 1)] else rest
  }

  /** How many valid rows have each dictionary index. */
  function Histogram(idx: seq<nat>, size: nat, valid: Mask, n: nat): (h: seq<nat>)
    requires n <= |idx|
    ensures |h| == size
  {
    if n == 0 then seq(size, _ => 0)
    else
      var h, d := Histogram(idx, size, valid, n - 1), idx[n - 1];
      if Passes(valid, n - 1) && d < size then h[d := h[d] + 1] else h
  }

  function WithoutSkipped(h: seq<nat>, skip: nat): (r: seq<nat>)
    ensures |r| == |h|
  {
    if skip < |h| then h[skip := 0] else h
  }

  /** The entries of a histogram with a non-zero count. */
  function HistogramLog(h: seq<nat>, dict: seq<Bytes>, n: nat): (r: seq<Counted>)
    requires n <= |h| == |dict|
    ensures Positive(r)
  {
    if n == 0 then []
    else
      var rest := HistogramLog(h, dict, n - 1);
      if h[n - 1] == 0 then rest else rest + [Counted(dict[n - 1], h[n - 1])]
  }

  /** The total a histogram gives to key `s`: several dictionary entries may hold the same string. */
  function HistogramTotal(h: seq<nat>, dict: seq<Bytes>, n: nat, s: Bytes): nat
    requires n <= |h| == |dict|
  {
    if n == 0 then 0 else HistogramTotal(h, dict, n - 1, s) + (if dict[n - 1] == s then h[n - 1] else 0)
  }

  lemma HistogramLogStep(h: seq<nat>, dict: seq<Bytes>, n: nat)
    requires 0 < n <= |h| == |dict|
    ensures HistogramLog(h, dict, n)
         == if h[n - 1] == 0 then HistogramLog(h, dict, n - 1)
            else HistogramLog(h, dict, n - 1) + [Counted(dict[n - 1], h[n - 1])]
  {
  }

  lemma HistogramLogTotal(h: seq<nat>, dict: seq<Bytes>, n: nat, s: Bytes)
    requires n <= |h| == |dict|
    ensures CountOf(HistogramLog(h, dict, n), s) == HistogramTotal(h, dict, n, s)
  {
    for d := 0 to n
      invariant CountOf(HistogramLog(h, dict, d), s) == HistogramTotal(h, dict, d, s)
    {
      HistogramLogStep(h, dict, d + 1);
      if h[d] != 0 {
        CountAppend(HistogramLog(h, dict, d), Counted(dict[d], h[d]), s);
      }
    }
  }

  lemma {:induction false} HistogramBump(h: seq<nat>, dict: seq<Bytes>, n: nat, d: nat, s: Bytes)
    requires n <= |h| == |dict| && d < |h|
    ensures HistogramTotal(h[d := h[d] + 1], dict, n, s)
         == HistogramTotal(h, dict, n, s) + (if d < n && dict[d] == s then 1 else 0)
  {
    if n > 0 {
      HistogramBump(h, dict, n - 1, d, s);
    }
  }

  lemma {:induction false} HistogramZero(h: seq<nat>, dict: seq<Bytes>, n: nat, s: Bytes)
    requires n <= |h| == |dict| && forall d :: 0 <= d < |h| ==> h[d] == 0
    ensures HistogramTotal(h, dict, n, s) == 0
  {
    if n > 0 {
      HistogramZero(h, dict, n - 1, s);
    }
  }

  /** Counting by histogram and counting row by row give each key the same total. */
  lemma HistogramCountsRows(idx: seq<nat>, dict: seq<Bytes>, valid: Mask, skip: nat, n: nat, s: Bytes)
    requires n <= |idx|
    ensures HistogramTotal(WithoutSkipped(Histogram(idx, |dict|, valid, n), skip), dict, |dict|, s)
         == CountOf(KeptRows(idx, dict, valid, skip, n), s)
  {
    NoRowCounts(idx, dict, valid, skip, s);
    for r := 0 to n
      invariant HistogramTotal(WithoutSkipped(Histogram(idx, |dict|, valid, r), skip), dict, |dict|, s)
             == CountOf(KeptRows(idx, dict, valid, skip, r), s)
    {
      NextRowCounts(idx, dict, valid, skip, r, s);
    }
  }

  lemma NoRowCounts(idx: seq<nat>, dict: seq<Bytes>, valid: Mask, skip: nat, s: Bytes)
    ensures HistogramTotal(WithoutSkipped(Histogram(idx, |dict|, valid, 0), skip), dict, |dict|, s) == 0
    ensures CountOf(KeptRows(idx, dict, valid, skip, 0), s) == 0
  {
    HistogramZero(WithoutSkipped(Histogram(idx, |dict|, valid, 0), skip), dict, |dict|, s);
  }

  /** One more row adds the same to both. */
  lemma NextRowCounts(idx: seq<nat>, dict: seq<Bytes>, valid: Mask, skip: nat, r: nat, s: Bytes)
    requires r < |idx|
    ensures HistogramTotal(WithoutSkipped(Histogram(idx, |dict|, valid, r + 1), skip), dict, |dict|, s)
          - HistogramTotal(WithoutSkipped(Histogram(idx, |dict|, valid, r), skip), dict, |dict|, s)
         == CountOf(KeptRows(idx, dict, valid, skip, r + 1), s) - CountOf(KeptRows(idx, dict, valid, skip, r), s)
  {
    var d := idx[r];
    if Passes(valid, r) && d < |dict| && d != skip {
      KeptRowCounts(idx, dict, valid, skip, r, s);
    } else if Passes(valid, r) && d < |dict| {
      SkipThenBump(Histogram(idx, |dict|, valid, r), skip, d);
    }
  }

  lemma KeptRowCounts(idx: seq<nat>, dict: seq<Bytes>, valid: Mask, skip: nat, r: nat, s: Bytes)
    requires r < |idx| && Passes(valid, r) && idx[r] < |dict| && idx[r] != skip
    ensures var one := if dict[idx[r]] == s then 1 else 0;
      && HistogramTotal(WithoutSkipped(Histogram(idx, |dict|, valid, r + 1), skip), dict, |dict|, s)
         == HistogramTotal(WithoutSkipped(Histogram(idx, |dict|, valid, r), skip), dict, |dict|, s) + one
      && CountOf(KeptRows(idx, dict, valid, skip, r + 1), s) == CountOf(KeptRows(idx, dict, valid, skip, r), s) + one
  {
    var d, h := idx[r], Histogram(idx, |dict|, valid, r);
    SkipThenBump(h, skip, d);
    HistogramBump(WithoutSkipped(h, skip), dict, |dict|, d, s);
    CountAppend(KeptRows(idx, dict, valid, skip, r), Counted(dict[d], 1), s);
  }

  /** The key bytes a histogram brings: those of the entries with a non-zero count. */
  function HistogramBytes(h: seq<nat>, dict: seq<Bytes>, n: nat): nat
    requires n <= |h| == |dict|
  {
    if n == 0 then 0 else HistogramBytes(h, dict, n - 1) + (if h[n - 1] == 0 then 0 else |dict[n - 1]|)
  }

  lemma {:induction false} HistogramLogBytes(h: seq<nat>, dict: seq<Bytes>, n: nat)
    requires n <= |h| == |dict|
    ensures LogBytes(HistogramLog(h, dict, n)) == HistogramBytes(h, dict, n)
  {
    if n > 0 {
      HistogramLogBytes(h, dict, n - 1);
      HistogramLogStep(h, dict, n);
      LogBytesAppend(HistogramLog(h, dict, n - 1), Counted(dict[n - 1], h[n - 1]));
    }
  }

  /** One more row of an entry adds at most the entry's bytes. */
  lemma {:induction false} HistogramBytesBump(h: seq<nat>, dict: seq<Bytes>, n: nat, d: nat)
    requires n <= |h| == |dict| && d < |h|
    ensures HistogramBytes(h[d := h[d] + 1], dict, n)
         <= HistogramBytes(h, dict, n) + (if d < n then |dict[d]| else 0)
  {
    if n > 0 {
      HistogramBytesBump(h, dict, n - 1, d);
    }
  }

  lemma {:induction false} HistogramBytesZero(h: seq<nat>, dict: seq<Bytes>, n: nat)
    requires n <= |h| == |dict| && forall d :: 0 <= d < |h| ==> h[d] == 0
    ensures HistogramBytes(h, dict, n) == 0
  {
    if n > 0 {
      HistogramBytesZero(h, dict, n - 1);
    }
  }

  /** Counting by histogram brings no more key bytes than counting row by row. */
  lemma HistogramBringsLess(idx: seq<nat>, dict: seq<Bytes>, valid: Mask, skip: nat, n: nat)
    requires n <= |idx|
    ensures HistogramBytes(WithoutSkipped(Histogram(idx, |dict|, valid, n), skip), dict, |dict|)
         <= LogBytes(KeptRows(idx, dict, valid, skip, n))
  {
    NoRowBrings(idx, dict, valid, skip);
    for r := 0 to n
      invariant BringsLess(idx, dict, valid, skip, r)
    {
      NextRowBrings(idx, dict, valid, skip, r);
    }
  }

  ghost predicate BringsLess(idx: seq<nat>, dict: seq<Bytes>, valid: Mask, skip: nat, n: nat) {
    match n <= |idx|
    case false => false
    case true =>
      HistogramBytes(WithoutSkipped(Histogram(idx, |dict|, valid, n), skip), dict, |dict|)
      <= LogBytes(KeptRows(idx, dict, valid, skip, n))
  }

  lemma NoRowBrings(idx: seq<nat>, dict: seq<Bytes>, valid: Mask, skip: nat)
    ensures BringsLess(idx, dict, valid, skip, 0)
  {
    HistogramBytesZero(WithoutSkipped(Histogram(idx, |dict|, valid, 0), skip), dict, |dict|);
  }

  lemma NextRowBrings(idx: seq<nat>, dict: seq<Bytes>, valid: Mask, skip: nat, r: nat)
    requires r < |idx| && BringsLess(idx, dict, valid, skip, r)
    ensures BringsLess(idx, dict, valid, skip, r + 1)
  {
    var d := idx[r];
    if Passes(valid, r) && d < |dict| && d != skip {
      KeptRowBrings(idx, dict, valid, skip, r);
    } else if Passes(valid, r) && d < |dict| {
      SkipThenBump(Histogram(idx, |dict|, valid, r), skip, d);
    }
  }

  lemma KeptRowBrings(idx: seq<nat>, dict: seq<Bytes>, valid: Mask, skip: nat, r: nat)
    requires r < |idx| && Passes(valid, r) && idx[r] < |dict| && idx[r] != skip
    ensures HistogramBytes(WithoutSkipped(Histogram(idx, |dict|, valid, r + 1), skip), dict, |dict|)
         <= HistogramBytes(WithoutSkipped(Histogram(idx, |dict|, valid, r), skip), dict, |dict|) + |dict[idx[r]]|
    ensures LogBytes(KeptRows(idx, dict, valid, skip, r + 1))
         == LogBytes(KeptRows(idx, dict, valid, skip, r)) + |dict[idx[r]]|
  {
    var d, h := idx[r], Histogram(idx, |dict|, valid, r);
    SkipThenBump(h, skip, d);
    HistogramBytesBump(WithoutSkipped(h, skip), dict, |dict|, d);
    LogBytesAppend(KeptRows(idx, dict, valid, skip, r), Counted(dict[d], 1));
  }

  lemma SkipThenBump(h: seq<nat>, skip: nat, d: nat)
    requires d < |h|
    ensures WithoutSkipped(h[d := h[d] + 1], skip)
         == if d == skip then WithoutSkipped(h, skip)
            else WithoutSkipped(h, skip)[d := WithoutSkipped(h, skip)[d] + 1]
  {
  }

  /** The keys a plain (not dictionary-encoded) row group counts. */
  function KeptPlain(rows: seq<Bytes>, valid: Mask, skipEmpty: bool, n: nat): (r: seq<Counted>)
    requires n <= |rows|
    ensures Positive(r)
  {
    if n == 0 then []
    else
      var rest := KeptPlain(rows, valid, skipEmpty, n - 1);
      if Passes(valid, n - 1) && !(skipEmpty && rows[n - 1] == []) then rest + [Counted(rows[n - 1], 1)] else rest
  }

  // ---- the spill ----

  predicate InBounds(e: HcEnt, n: nat) {
    e.off + e.len <= n
  }

  /** The bytes an entry names. */
  function EntKey(e: HcEnt, sbytes: Bytes): Bytes {
    if InBounds(e, |sbytes|) then sbytes[e.off..e.off + e.len] else []
  }

  /** The entry names bytes of the buffer and carries their hash. */
  predicate EntryOk(e: HcEnt, sbytes: Bytes, hashOf: Bytes -> u64) {
    InBounds(e, |sbytes|) && e.hash == hashOf(EntKey(e, sbytes))
  }

  ghost predicate SpillOk(sp: Spill, hashOf: Bytes -> u64) {
    forall e :: e in sp.entries ==> EntryOk(e, sp.sbytes, hashOf)
  }

  /** Entries as a log of counted keys. */
  function LogOf(es: seq<HcEnt>, sbytes: Bytes): (r: seq<Counted>)
    ensures |r| == |es|
  {
    if es == [] then [] else LogOf(Init(es), sbytes) + [Counted(EntKey(Last(es), sbytes), Last(es).count)]
  }

  function SpillLog(sp: Spill): seq<Counted> {
    LogOf(sp.entries, sp.sbytes)
  }

  /** Appending bytes leaves what the entries name. */
  lemma {:induction false} LogGrow(es: seq<HcEnt>, sbytes: Bytes, more: Bytes)
    requires forall e :: e in es ==> InBounds(e, |sbytes|)
    ensures LogOf(es, sbytes + more) == LogOf(es, sbytes)
  {
    if es != [] {
      forall e | e in Init(es) ensures InBounds(e, |sbytes|) {
        assert e in es;
      }
      LogGrow(Init(es), sbytes, more);
      assert Last(es) in es;
      KeyStays(Last(es), sbytes, more);
    }
  }

  lemma KeyStays(e: HcEnt, sbytes: Bytes, more: Bytes)
    requires InBounds(e, |sbytes|)
    ensures InBounds(e, |sbytes + more|) && EntKey(e, sbytes + more) == EntKey(e, sbytes)
  {
    assert (sbytes + more)[e.off..e.off + e.len] == sbytes[e.off..e.off + e.len];
  }

  /** The spill with one more entry, its key's bytes appended; offset and length are 32 bits wide. */
  function Append(sp: Spill, key: Bytes, h: u64, count: int): Spill {
    Spill(sp.entries + [HcEnt(h, |sp.sbytes| % TWO_32, |key| % TWO_32, count)], sp.sbytes + key)
  }

  /** No offset into the spill has been cut. */
  predicate SpillFits(sp: Spill) {
    |sp.sbytes| < TWO_32
  }

  /** What the spill would be if offsets and lengths had no width. */
  ghost function AppendWhole(w: Spill, key: Bytes, h: u64, count: int): Spill {
    Spill(w.entries + [HcEnt(h, |w.sbytes|, |key|, count)], w.sbytes + key)
  }

  function CutEntry(e: HcEnt): HcEnt {
    HcEnt(e.hash, e.off % TWO_32, e.len % TWO_32, e.count)
  }

  ghost function CutAll(es: seq<HcEnt>): (r: seq<HcEnt>)
    ensures |r| == |es|
    ensures forall i :: 0 <= i < |es| ==> r[i] == CutEntry(es[i])
  {
    seq(|es|, i requires 0 <= i < |es| => CutEntry(es[i]))
  }

  /** The spill as it is stored: offsets and lengths cut to 32 bits. */
  ghost function Cut(w: Spill): Spill {
    Spill(CutAll(w.entries), w.sbytes)
  }

  /** With less than 4 GiB of bytes nothing is lost. */
  lemma CutNothing(w: Spill, hashOf: Bytes -> u64)
    requires SpillOk(w, hashOf) && SpillFits(w)
    ensures Cut(w) == w
  {
    forall i | 0 <= i < |w.entries| ensures CutEntry(w.entries[i]) == w.entries[i] {
      assert w.entries[i] in w.entries;
    }
  }

  lemma CutAppend(w: Spill, key: Bytes, h: u64, count: int)
    ensures Append(Cut(w), key, h, count) == Cut(AppendWhole(w, key, h, count))
  {
  }

  /**
   * The stored spill is always the whole one, cut. The whole one gains an entry that names its own key bytes and
   * keeps what every other entry names; below 4 GiB the stored one is the whole one.
   */
  lemma SpillAppend(w: Spill, key: Bytes, count: int, hashOf: Bytes -> u64)
    requires SpillOk(w, hashOf)
    ensures var w' := AppendWhole(w, key, hashOf(key), count);
      && SpillOk(w', hashOf) && SpillLog(w') == SpillLog(w) + [Counted(key, count)]
      && Append(Cut(w), key, hashOf(key), count) == Cut(w')
      && (SpillFits(w') ==> Cut(w') == w')
  {
    var w' := AppendWhole(w, key, hashOf(key), count);
    EntryAppend(w, key, Last(w'.entries), hashOf);
    CutAppend(w, key, hashOf(key), count);
    if SpillFits(w') {
      CutNothing(w', hashOf);
    }
  }

  /** Whatever order the stored entries are sorted into, the whole ones have such an order too. */
  lemma {:induction false} WholeOrder(ws: seq<HcEnt>, es: seq<HcEnt>) returns (r: seq<HcEnt>)
    requires multiset(es) == multiset(CutAll(ws))
    ensures multiset(r) == multiset(ws) && CutAll(r) == es
    decreases |ws|
  {
    if ws == [] {
      assert |multiset(es)| == 0;
      r := [];
    } else {
      var u := CutEntry(Last(ws));
      assert CutAll(ws) == CutAll(Init(ws)) + [u];
      var b1, b2 := SplitPermutation(CutAll(Init(ws)), u, es);
      var rest := WholeOrder(Init(ws), b1 + b2);
      r := rest[..|b1|] + ([Last(ws)] + rest[|b1|..]);
      InsertWhole(ws, rest, b1, b2);
    }
  }

  lemma InsertWhole(ws: seq<HcEnt>, rest: seq<HcEnt>, b1: seq<HcEnt>, b2: seq<HcEnt>)
    requires ws != [] && CutAll(rest) == b1 + b2 && multiset(rest) == multiset(Init(ws))
    ensures |rest| == |b1| + |b2|
    ensures var r := rest[..|b1|] + ([Last(ws)] + rest[|b1|..]);
      multiset(r) == multiset(ws) && CutAll(r) == b1 + ([CutEntry(Last(ws))] + b2)
  {
    assert |CutAll(rest)| == |rest|;
    var a, b := rest[..|b1|], rest[|b1|..];
    assert rest == a + b && ws == Init(ws) + [Last(ws)];
    MultisetAround(a, Last(ws), b);
    CutAround(a, Last(ws), b, b1, b2);
  }

  lemma CutAround(a: seq<HcEnt>, e: HcEnt, b: seq<HcEnt>, b1: seq<HcEnt>, b2: seq<HcEnt>)
    requires CutAll(a + b) == b1 + b2 && |a| == |b1|
    ensures CutAll(a + ([e] + b)) == b1 + ([CutEntry(e)] + b2)
  {
    CutConcat(a, [e] + b);
    CutConcat([e], b);
    CutConcat(a, b);
    SplitAlike(CutAll(a), CutAll(b), b1, b2);
    assert CutAll([e]) == [CutEntry(e)];
  }

  lemma CutConcat(a: seq<HcEnt>, b: seq<HcEnt>)
    ensures CutAll(a + b) == CutAll(a) + CutAll(b)
  {
  }

  lemma SplitAlike(a: seq<HcEnt>, b: seq<HcEnt>, b1: seq<HcEnt>, b2: seq<HcEnt>)
    requires a + b == b1 + b2 && |a| == |b1|
    ensures a == b1 && b == b2
  {
    assert (a + b)[..|a|] == a && (b1 + b2)[..|b1|] == b1;
    assert (a + b)[|a|..] == b && (b1 + b2)[|b1|..] == b2;
  }

  lemma EntryAppend(sp: Spill, key: Bytes, e: HcEnt, hashOf: Bytes -> u64)
    requires SpillOk(sp, hashOf) && e.hash == hashOf(key) && e.off == |sp.sbytes| && e.len == |key|
    ensures var sp' := Spill(sp.entries + [e], sp.sbytes + key);
      SpillOk(sp', hashOf) && SpillLog(sp') == SpillLog(sp) + [Counted(key, e.count)]
  {
    var sp' := Spill(sp.entries + [e], sp.sbytes + key);
    assert EntKey(e, sp'.sbytes) == key;
    forall x | x in sp'.entries ensures EntryOk(x, sp'.sbytes, hashOf) {
      if x != e {
        assert x in sp.entries;
        KeyStays(x, sp.sbytes, key);
      }
    }
    LogGrow(sp.entries, sp.sbytes, key);
    assert Init(sp'.entries) == sp.entries;
  }

  lemma {:induction false} LogConcat(a: seq<HcEnt>, b: seq<HcEnt>, sbytes: Bytes)
    ensures LogOf(a + b, sbytes) == LogOf(a, sbytes) + LogOf(b, sbytes)
  {
    if b == [] {
      assert a + b == a;
    } else {
      LogConcat(a, Init(b), sbytes);
      assert Init(a + b) == a + Init(b);
    }
  }

  /** Permuting the entries changes no count. */
  lemma {:induction false} CountPermutation(a: seq<HcEnt>, b: seq<HcEnt>, sbytes: Bytes, s: Bytes)
    requires multiset(a) == multiset(b)
    ensures CountOf(LogOf(a, sbytes), s) == CountOf(LogOf(b, sbytes), s)
    decreases |a|
  {
    if a == [] {
      assert |multiset(b)| == 0;
    } else {
      assert a == Init(a) + [Last(a)];
      var b1, b2 := SplitPermutation(Init(a), Last(a), b);
      CountPermutation(Init(a), b1 + b2, sbytes, s);
      CountAround(b1, Last(a), b2, sbytes, s);
    }
  }

  lemma CountAround(b1: seq<HcEnt>, e: HcEnt, b2: seq<HcEnt>, sbytes: Bytes, s: Bytes)
    ensures CountOf(LogOf(b1 + ([e] + b2), sbytes), s)
         == CountOf(LogOf(b1 + b2, sbytes), s) + (if EntKey(e, sbytes) == s then e.count else 0)
  {
    CountParts(b1, [e] + b2, sbytes, s);
    CountParts([e], b2, sbytes, s);
    CountParts(b1, b2, sbytes, s);
    assert Init([e]) == [];
  }

  lemma CountParts(a: seq<HcEnt>, b: seq<HcEnt>, sbytes: Bytes, s: Bytes)
    ensures CountOf(LogOf(a + b, sbytes), s) == CountOf(LogOf(a, sbytes), s) + CountOf(LogOf(b, sbytes), s)
  {
    LogConcat(a, b, sbytes);
    CountConcat(LogOf(a, sbytes), LogOf(b, sbytes), s);
  }

  lemma {:induction false} LogOfOccurs(es: seq<HcEnt>, sbytes: Bytes, s: Bytes)
    ensures Occurs(LogOf(es, sbytes), s) <==> exists e :: e in es && EntKey(e, sbytes) == s
  {
    if es != [] {
      LogOfOccurs(Init(es), sbytes, s);
      OccursAppend(LogOf(Init(es), sbytes), Counted(EntKey(Last(es), sbytes), Last(es).count), s);
      assert es == Init(es) + [Last(es)];
    }
  }

  /** The bytes of a set of keys. */
  ghost function KeyBytes(keys: set<Bytes>): nat {
    if keys == {} then 0
    else
      var k :| k in keys;
      |k| + KeyBytes(keys - {k})
  }

  lemma {:induction false} KeyBytesRemove(keys: set<Bytes>, k: Bytes)
    requires k in keys
    ensures KeyBytes(keys) == |k| + KeyBytes(keys - {k})
    decreases keys
  {
    var j :| j in keys && KeyBytes(keys) == |j| + KeyBytes(keys - {j});
    if j != k {
      KeyBytesRemove(keys - {j}, k);
      KeyBytesRemove(keys - {k}, j);
      assert keys - {j} - {k} == keys - {k} - {j};
    }
  }

  // ---- the active table ----

  /** Each key of the active table is what its view shows in the used part of the arena. */
  ghost predicate ViewsOk(active: map<Bytes, View>, used: Bytes) {
    forall k :: k in active ==> Shows(active[k], used, k)
  }

  predicate Shows(v: View, used: Bytes, k: Bytes) {
    v.off + v.len <= |used| && used[v.off..v.off + v.len] == k
  }

  lemma ViewsAdd(active: map<Bytes, View>, used: Bytes, k: Bytes, c: int)
    requires ViewsOk(active, used)
    ensures ViewsOk(active[k := View(|used|, |k|, c)], used + k)
  {
    var active' := active[k := View(|used|, |k|, c)];
    forall x | x in active' ensures Shows(active'[x], used + k, x) {
      if x != k {
        assert Shows(active[x], used, x);
        assert (used + k)[active[x].off..active[x].off + active[x].len]
          == used[active[x].off..active[x].off + active[x].len];
      }
    }
  }

  lemma ViewsBump(active: map<Bytes, View>, used: Bytes, k: Bytes, c: int)
    requires ViewsOk(active, used) && k in active
    ensures ViewsOk(active[k := active[k].(count := c)], used)
  {
    assert Shows(active[k], used, k);
  }

  function ActiveCount(active: map<Bytes, View>, s: Bytes): int {
    if s in active then active[s].count else 0
  }

  /** Active table and spill together account for the log. */
  ghost predicate Accounts(active: map<Bytes, View>, spilled: seq<Counted>, log: seq<Counted>) {
    && (forall s :: ActiveCount(active, s) + CountOf(spilled, s) == CountOf(log, s))
    && (forall s :: s in active || Occurs(spilled, s) <==> Occurs(log, s))
  }

  lemma {:induction false} OccursAppend(log: seq<Counted>, c: Counted, s: Bytes)
    ensures Occurs(log + [c], s) <==> Occurs(log, s) || c.key == s
  {
    if Occurs(log, s) {
      var i :| 0 <= i < |log| && log[i].key == s;
      assert (log + [c])[i].key == s;
    }
    assert (log + [c])[|log|] == c;
  }

  lemma {:induction false} CountAppend(log: seq<Counted>, c: Counted, s: Bytes)
    ensures CountOf(log + [c], s) == CountOf(log, s) + (if c.key == s then c.count else 0)
  {
    assert Init(log + [c]) == log;
  }

  /** Counting a key in the active table. */
  lemma AccountsIngest(active: map<Bytes, View>, spilled: seq<Counted>, log: seq<Counted>, k: Bytes, c: int, v: View)
    requires Accounts(active, spilled, log)
    requires v.count == ActiveCount(active, k) + c
    ensures Accounts(active[k := v], spilled, log + [Counted(k, c)])
  {
    var active', log' := active[k := v], log + [Counted(k, c)];
    forall s ensures ActiveCount(active', s) + CountOf(spilled, s) == CountOf(log', s) {
      CountAppend(log, Counted(k, c), s);
    }
    forall s ensures s in active' || Occurs(spilled, s) <==> Occurs(log', s) {
      OccursAppend(log, Counted(k, c), s);
    }
  }

  /** Moving one key from the active table to the spill. */
  lemma AccountsFlush(active: map<Bytes, View>, spilled: seq<Counted>, log: seq<Counted>, k: Bytes)
    requires Accounts(active, spilled, log) && k in active
    ensures Accounts(active - {k}, spilled + [Counted(k, active[k].count)], log)
  {
    var active', spilled' := active - {k}, spilled + [Counted(k, active[k].count)];
    forall s ensures ActiveCount(active', s) + CountOf(spilled', s) == CountOf(log, s) {
      CountAppend(spilled, Counted(k, active[k].count), s);
    }
    forall s ensures s in active' || Occurs(spilled', s) <==> Occurs(log, s) {
      OccursAppend(spilled, Counted(k, active[k].count), s);
    }
  }

  /** The spill is well formed and, with the active table, accounts for the log. */
  ghost predicate Ledger(active: map<Bytes, View>, sp: Spill, hashOf: Bytes -> u64, log: seq<Counted>) {
    forall seal: Seal :: LedgerOpen(seal, active, sp, hashOf, log)
  }

  ghost predicate LedgerOpen(seal: Seal, active: map<Bytes, View>, sp: Spill, hashOf: Bytes -> u64, log: seq<Counted>) {
    SpillOk(sp, hashOf) && Accounts(active, SpillLog(sp), log)
  }

  lemma OpenLedger(active: map<Bytes, View>, sp: Spill, hashOf: Bytes -> u64, log: seq<Counted>)
    requires Ledger(active, sp, hashOf, log)
    ensures LedgerOpen(Seal, active, sp, hashOf, log)
  {
  }

  lemma CloseLedger(active: map<Bytes, View>, sp: Spill, hashOf: Bytes -> u64, log: seq<Counted>)
    requires LedgerOpen(Seal, active, sp, hashOf, log)
    ensures Ledger(active, sp, hashOf, log)
  {
    forall seal: Seal ensures LedgerOpen(seal, active, sp, hashOf, log) {
      assert seal == Seal;
    }
  }

  /** The ledger depends on a log only through its counts and its keys. */
  lemma LedgerSame(active: map<Bytes, View>, sp: Spill, hashOf: Bytes -> u64, log: seq<Counted>, log': seq<Counted>)
    requires Ledger(active, sp, hashOf, log) && SameCounts(log, log')
    ensures Ledger(active, sp, hashOf, log')
  {
    OpenLedger(active, sp, hashOf, log);
    CloseLedger(active, sp, hashOf, log');
  }

  /** Reordering the entries of the spill keeps the ledger. */
  lemma LedgerPermute(active: map<Bytes, View>, sp: Spill, es: seq<HcEnt>, hashOf: Bytes -> u64, log: seq<Counted>)
    requires Ledger(active, sp, hashOf, log) && multiset(es) == multiset(sp.entries)
    ensures Ledger(active, sp.(entries := es), hashOf, log)
  {
    OpenLedger(active, sp, hashOf, log);
    forall e ensures e in es <==> e in sp.entries {
      assert e in multiset(es) <==> e in multiset(sp.entries);
    }
    forall s
      ensures CountOf(LogOf(es, sp.sbytes), s) == CountOf(SpillLog(sp), s)
      ensures Occurs(LogOf(es, sp.sbytes), s) <==> Occurs(SpillLog(sp), s)
    {
      CountPermutation(es, sp.entries, sp.sbytes, s);
      LogOfOccurs(es, sp.sbytes, s);
      LogOfOccurs(sp.entries, sp.sbytes, s);
    }
    CloseLedger(active, sp.(entries := es), hashOf, log);
  }

  lemma LedgerEmpty(hashOf: Bytes -> u64)
    ensures Ledger(map[], Spill([], []), hashOf, [])
  {
    assert forall s :: !Occurs([], s);
    CloseLedger(map[], Spill([], []), hashOf, []);
  }

  lemma LedgerIngest(active: map<Bytes, View>, sp: Spill, hashOf: Bytes -> u64, log: seq<Counted>, k: Bytes, c: int,
                     v: View)
    requires Ledger(active, sp, hashOf, log)
    requires v.count == ActiveCount(active, k) + c
    ensures Ledger(active[k := v], sp, hashOf, log + [Counted(k, c)])
  {
    OpenLedger(active, sp, hashOf, log);
    AccountsIngest(active, SpillLog(sp), log, k, c, v);
    CloseLedger(active[k := v], sp, hashOf, log + [Counted(k, c)]);
  }

  lemma LedgerFlush(active: map<Bytes, View>, sp: Spill, hashOf: Bytes -> u64, log: seq<Counted>, k: Bytes)
    requires Ledger(active, sp, hashOf, log) && k in active
    ensures Ledger(active - {k}, AppendWhole(sp, k, hashOf(k), active[k].count), hashOf, log)
  {
    OpenLedger(active, sp, hashOf, log);
    SpillAppend(sp, k, active[k].count, hashOf);
    AccountsFlush(active, SpillLog(sp), log, k);
    CloseLedger(active - {k}, AppendWhole(sp, k, hashOf(k), active[k].count), hashOf, log);
  }

  /** Copies `data` into the arena from `at` on. */
  method CopyIn(arena: array<byte>, at: nat, data: Bytes)
    requires at + |data| <= arena.Length
    modifies arena
    ensures arena[..at + |data|] == old(arena[..at]) + data
  {
    for i := 0 to |data|
      invariant arena[..at + i] == old(arena[..at]) + data[..i]
    {
      arena[at + i] := data[i];
      assert arena[..at + i + 1] == arena[..at + i] + [data[i]];
    }
  }

  /** Reads the bytes a view shows. */
  method ReadView(arena: array<byte>, v: View, ghost used: nat, ghost k: Bytes) returns (sv: Bytes)
    requires used <= arena.Length && Shows(v, arena[..used], k)
    ensures sv == k
  {
    sv := arena[v.off..v.off + v.len];
    assert sv == arena[..used][v.off..v.off + v.len];
  }

  /** The ledger of the whole spill holds, and no more bytes are kept than were ingested. */
  ghost predicate Books(active: map<Bytes, View>, sp: Spill, hashOf: Bytes -> u64, log: seq<Counted>) {
    && Ledger(active, sp, hashOf, log)
    && |sp.sbytes| + KeyBytes(active.Keys) <= LogBytes(log)
  }

  lemma BooksIngest(active: map<Bytes, View>, sp: Spill, hashOf: Bytes -> u64, log: seq<Counted>, k: Bytes, c: int,
                    v: View)
    requires Books(active, sp, hashOf, log)
    requires v.count == ActiveCount(active, k) + c
    ensures Books(active[k := v], sp, hashOf, log + [Counted(k, c)])
  {
    LedgerIngest(active, sp, hashOf, log, k, c, v);
    LogBytesAppend(log, Counted(k, c));
    KeyBytesRemove(active[k := v].Keys, k);
    if k in active {
      assert active[k := v].Keys == active.Keys;
    } else {
      assert active[k := v].Keys - {k} == active.Keys;
    }
  }

  lemma BooksFlush(active: map<Bytes, View>, sp: Spill, hashOf: Bytes -> u64, log: seq<Counted>, k: Bytes)
    requires Books(active, sp, hashOf, log) && k in active
    ensures Books(active - {k}, AppendWhole(sp, k, hashOf(k), active[k].count), hashOf, log)
  {
    LedgerFlush(active, sp, hashOf, log, k);
    KeyBytesRemove(active.Keys, k);
    assert (active - {k}).Keys == active.Keys - {k};
  }

  lemma BooksSame(active: map<Bytes, View>, sp: Spill, hashOf: Bytes -> u64, log: seq<Counted>, log': seq<Counted>)
    requires Books(active, sp, hashOf, log) && SameCounts(log, log') && LogBytes(log) <= LogBytes(log')
    ensures Books(active, sp, hashOf, log')
  {
    LedgerSame(active, sp, hashOf, log, log');
  }

  lemma BooksPermute(active: map<Bytes, View>, sp: Spill, es: seq<HcEnt>, hashOf: Bytes -> u64, log: seq<Counted>)
    requires Books(active, sp, hashOf, log) && multiset(es) == multiset(sp.entries)
    ensures Books(active, sp.(entries := es), hashOf, log)
  {
    LedgerPermute(active, sp, es, hashOf, log);
  }

  /** The active table is bounded, its views show their keys, and the books are right. */
  ghost predicate ThreadOk(active: map<Bytes, View>, used: Bytes, sp: Spill, hashOf: Bytes -> u64, log: seq<Counted>) {
    && |active| <= HC_ACTIVE_CAP
    && ViewsOk(active, used)
    && Books(active, sp, hashOf, log)
  }

  /** Entering a key at the end of the used part of the arena. */
  lemma EnterFacts(active: map<Bytes, View>, used: Bytes, sp: Spill, hashOf: Bytes -> u64, log: seq<Counted>, k: Bytes,
                   c: int)
    requires ThreadOk(active, used, sp, hashOf, log) && k !in active && |active| < HC_ACTIVE_CAP
    ensures ThreadOk(active[k := View(|used|, |k|, c)], used + k, sp, hashOf, log + [Counted(k, c)])
  {
    assert |active[k := View(|used|, |k|, c)]| == |active| + 1;
    BooksIngest(active, sp, hashOf, log, k, c, View(|used|, |k|, c));
    ViewsAdd(active, used, k, c);
  }

  class HcThread {
    const hashOf: Bytes -> u64
    const arena: array<byte>            // fixed size, reused after every flush
    var active: map<Bytes, View>        // the library map, keyed by what its views show
    var arenaUsed: nat
    var spill: Spill
    var dictScratch: seq<nat>           // the histogram buffer, reused per row group
    ghost var whole: Spill              // the spill with nothing cut off
    ghost var log: seq<Counted>         // everything ingested so far

    ghost predicate Valid()
      reads this, arena
    {
      && arena.Length == HC_ARENA_BYTES
      && arenaUsed <= arena.Length
      && ThreadOk(active, arena[..arenaUsed], whole, hashOf, log)
      && spill == Cut(whole)
    }

    constructor (hashOf: Bytes -> u64)
      ensures Valid() && fresh(arena) && log == [] && this.hashOf == hashOf
    {
      this.hashOf := hashOf;
      arena := new byte[HC_ARENA_BYTES](i => 0);
      active, arenaUsed, spill, dictScratch, log := map[], 0, Spill([], []), [], [];
      whole := Spill([], []);
      LedgerEmpty(hashOf);
      assert Books(map[], Spill([], []), hashOf, []);
    }

    /** Appends the entry of one view to a spill. */
    method SpillView(v: View, sp: Spill, ghost w: Spill, ghost left: map<Bytes, View>, ghost k: Bytes)
      returns (sp': Spill, ghost w': Spill)
      requires arenaUsed <= arena.Length && Shows(v, arena[..arenaUsed], k)
      requires Books(left, w, hashOf, log) && sp == Cut(w) && k in left && left[k] == v
      ensures Books(left - {k}, w', hashOf, log) && sp' == Cut(w')
    {
      var sv := ReadView(arena, v, arenaUsed, k);
      BooksFlush(left, w, hashOf, log, k);
      CutAppend(w, k, hashOf(k), v.count);
      sp', w' := Append(sp, sv, hashOf(sv), v.count), AppendWhole(w, k, hashOf(k), v.count);
    }

    /** The spill with every active entry appended, in whatever order the map yields them. */
    method SpillAll() returns (sp: Spill, ghost w: Spill)
      requires Valid()
      ensures Books(map[], w, hashOf, log) && sp == Cut(w)
    {
      ghost var left := active;
      var todo := active.Keys;
      sp, w := spill, whole;
      while todo != {}
        invariant left.Keys == todo && forall k :: k in todo ==> k in active && left[k] == active[k]
        invariant Books(left, w, hashOf, log) && sp == Cut(w)
        decreases |todo|
      {
        var k :| k in todo;
        sp, w := SpillView(active[k], sp, w, left, k);
        left, todo := left - {k}, todo - {k};
      }
      assert left == map[];
    }

    /** Moves every active entry to the spill and empties table and arena. */
    method Flush()
      requires Valid()
      modifies this`active, this`arenaUsed, this`spill, this`whole
      ensures Valid() && active == map[] && arenaUsed == 0
    {
      var sp;
      ghost var w;
      sp, w := SpillAll();
      active, arenaUsed, spill, whole := map[], 0, sp, w;
    }

    /** Counts `data` `c` times, flushing first when the table is full or the arena would overflow. */
    method Ingest(data: Bytes, c: int)
      requires Valid() && |data| <= HC_ARENA_BYTES
      modifies this, arena
      ensures Valid() && log == old(log) + [Counted(data, c)]
    {
      if data in active {
        var v := active[data];
        Bump(data, v, c);
      } else {
        if |active| >= HC_ACTIVE_CAP || arenaUsed + |data| > arena.Length {
          Flush();
        }
        Enter(data, c);
      }
    }

    method Bump(data: Bytes, v: View, c: int)
      requires Valid() && data in active && active[data] == v
      modifies this`active, this`log
      ensures Valid() && log == old(log) + [Counted(data, c)]
    {
      var v' := v.(count := v.count + c);
      BooksIngest(active, whole, hashOf, log, data, c, v');
      ViewsBump(active, arena[..arenaUsed], data, v'.count);
      active := active[data := v'];
      log := log + [Counted(data, c)];
    }

    method Enter(data: Bytes, c: int)
      requires Valid() && data !in active && |active| < HC_ACTIVE_CAP && arenaUsed + |data| <= arena.Length
      modifies this`active, this`arenaUsed, this`log, arena
      ensures Valid() && log == old(log) + [Counted(data, c)]
    {
      var v := View(arenaUsed, |data|, c);
      ghost var used := arena[..arenaUsed];
      EnterFacts(active, used, whole, hashOf, log, data, c);
      CopyIn(arena, arenaUsed, data);
      active, arenaUsed, log := active[data := v], arenaUsed + |data|, log + [Counted(data, c)];
      assert arena[..arenaUsed] == used + data;
    }

    /** The histogram buffer, zeroed where it is used, with every valid row counted. */
    method CountIndices(idx: seq<nat>, size: nat, valid: Mask) returns (cnt: seq<nat>)
      requires Covers(valid, |idx|)
      ensures |cnt| >= size && cnt[..size] == Histogram(idx, size, valid, |idx|)
    {
      cnt := if |dictScratch| < size then seq(size, _ => 0) else seq(size, _ => 0) + dictScratch[size..];
      for r := 0 to |idx|
        invariant |cnt| >= size && cnt[..size] == Histogram(idx, size, valid, r)
      {
        if Passes(valid, r) {
          var d := idx[r];
          if d < size {
            cnt := cnt[d := cnt[d] + 1];
          }
        }
      }
    }

    /** Ingests every dictionary entry with a non-zero count, once, with its count. */
    method IngestCounts(cnt: seq<nat>, dict: seq<Bytes>)
      requires Valid() && |dict| <= |cnt|
      requires forall d :: 0 <= d < |dict| ==> |dict[d]| <= HC_ARENA_BYTES
      modifies this, arena
      ensures Valid() && log == old(log) + HistogramLog(cnt[..|dict|], dict, |dict|)
    {
      ghost var h := cnt[..|dict|];
      ghost var before := log;
      LogStep(before, [], false, Counted([], 0));
      for d := 0 to |dict|
        invariant Valid() && log == before + HistogramLog(h, dict, d)
      {
        var c := cnt[d];
        if c != 0 {
          LogStep(before, HistogramLog(h, dict, d), true, Counted(dict[d], c));
          Ingest(dict[d], c);
        }
      }
    }

    /** Ingests a dictionary-encoded row group: counts per dictionary entry first, then ingests each entry once. */
    method IngestDictRG(idx: seq<nat>, dict: seq<Bytes>, valid: Mask, skip: nat)
      requires Valid() && Covers(valid, |idx|)
      requires forall d :: 0 <= d < |dict| ==> |dict[d]| <= HC_ARENA_BYTES
      modifies this, arena
      ensures Valid() && log == old(log) + KeptRows(idx, dict, valid, skip, |idx|)
    {
      if |dict| == 0 || |idx| == 0 {
        KeptNone(idx, dict, valid, skip, |idx|);
        LogStep(log, [], false, Counted([], 0));
        return;
      }
      var cnt := CountIndices(idx, |dict|, valid);
      SkipPrefix(cnt, |dict|, skip);
      if skip < |dict| {
        cnt := cnt[skip := 0];
      }
      dictScratch := cnt;
      IngestCounts(cnt, dict);
      Recount(old(log), HistogramLog(cnt[..|dict|], dict, |dict|), idx, dict, valid, skip);
    }

    /** Restates the log row by row. */
    ghost method Recount(before: seq<Counted>, hist: seq<Counted>, idx: seq<nat>, dict: seq<Bytes>, valid: Mask,
                         skip: nat)
      requires Valid() && log == before + hist
      requires hist == HistogramLog(WithoutSkipped(Histogram(idx, |dict|, valid, |idx|), skip), dict, |dict|)
      modifies this`log
      ensures Valid() && log == before + KeptRows(idx, dict, valid, skip, |idx|)
    {
      var kept := KeptRows(idx, dict, valid, skip, |idx|);
      forall s ensures CountOf(hist, s) == CountOf(kept, s) {
        HistogramCountsRows(idx, dict, valid, skip, |idx|, s);
        HistogramLogTotal(WithoutSkipped(Histogram(idx, |dict|, valid, |idx|), skip), dict, |dict|, s);
      }
      SameCountsAfter(before, hist, kept);
      HistogramLogBytes(WithoutSkipped(Histogram(idx, |dict|, valid, |idx|), skip), dict, |dict|);
      HistogramBringsLess(idx, dict, valid, skip, |idx|);
      LogBytesConcat(before, hist);
      LogBytesConcat(before, kept);
      BooksSame(active, whole, hashOf, log, before + kept);
      log := before + kept;
    }

    /** Ingests a plain row group, row by row. */
    method IngestPlainRG(rows: seq<Bytes>, valid: Mask, skipEmpty: bool)
      requires Valid() && Covers(valid, |rows|)
      requires forall r :: 0 <= r < |rows| ==> |rows[r]| <= HC_ARENA_BYTES
      modifies this, arena
      ensures Valid() && log == old(log) + KeptPlain(rows, valid, skipEmpty, |rows|)
    {
      ghost var before := log;
      LogStep(before, [], false, Counted([], 0));
      for r := 0 to |rows|
        invariant Valid() && log == before + KeptPlain(rows, valid, skipEmpty, r)
      {
        PlainRow(rows, valid, skipEmpty, r, before);
      }
    }

    /** One row of a plain row group. */
    method PlainRow(rows: seq<Bytes>, valid: Mask, skipEmpty: bool, r: nat, ghost before: seq<Counted>)
      requires r < |rows| && |rows[r]| <= HC_ARENA_BYTES && Covers(valid, |rows|)
      requires Valid() && log == before + KeptPlain(rows, valid, skipEmpty, r)
      modifies this, arena
      ensures Valid() && log == before + KeptPlain(rows, valid, skipEmpty, r + 1)
    {
      KeptPlainStep(before, rows, valid, skipEmpty, r);
      if Passes(valid, r) {
        if !(skipEmpty && |rows[r]| == 0) {
          Ingest(rows[r], 1);
        }
      }
    }

    /** Flushes what is left and sorts the spill by hash. */
    method Finalize()
      requires Valid()
      modifies this
      ensures Valid() && active == map[] && log == old(log)
      ensures SortedByHash(spill.entries)
    {
      if |active| > 0 {
        Flush();
      }
      var sorted := SortByHash(spill.entries);
      ghost var order := WholeOrder(whole.entries, sorted);
      BooksPermute(active, whole, order, hashOf, log);
      spill, whole := spill.(entries := sorted), whole.(entries := order);
    }
  }

  // ---- sorting ----

  ghost predicate SortedByHash(es: seq<HcEnt>) {
    forall i, j :: 0 <= i < j < |es| ==> es[i].hash <= es[j].hash
  }

  /** Position `p` keeps a hash-ordered list ordered when `h` goes there. */
  predicate FitsAt(r: seq<HcEnt>, p: nat, h: u64)
    requires p <= |r|
  {
    (p > 0 ==> r[p - 1].hash <= h) && (p < |r| ==> h <= r[p].hash)
  }

  lemma {:induction false} SomeFit(r: seq<HcEnt>, h: u64) returns (p: nat)
    requires SortedByHash(r)
    ensures p <= |r| && FitsAt(r, p, h)
  {
    p := |r|;
    if p > 0 && r[p - 1].hash > h {
      p := SomeFit(Init(r), h);
    }
  }

  /** In an ordered list everything before an insertion point is no larger, everything from it on no smaller. */
  lemma FitsSplit(r: seq<HcEnt>, p: nat, h: u64)
    requires SortedByHash(r) && p <= |r| && FitsAt(r, p, h)
    ensures SortedByHash(r[..p]) && SortedByHash(r[p..])
    ensures forall i :: 0 <= i < |r[..p]| ==> r[..p][i].hash <= h
    ensures forall i :: 0 <= i < |r[p..]| ==> h <= r[p..][i].hash
  {
  }

  lemma JoinSorted(a: seq<HcEnt>, e: HcEnt, b: seq<HcEnt>)
    requires SortedByHash(a) && SortedByHash(b)
    requires forall i :: 0 <= i < |a| ==> a[i].hash <= e.hash
    requires forall i :: 0 <= i < |b| ==> e.hash <= b[i].hash
    ensures SortedByHash(a + ([e] + b))
  {
    var s := a + ([e] + b);
    forall i, j | 0 <= i < j < |s| ensures s[i].hash <= s[j].hash {
      assert i < |a| ==> s[i] == a[i];
      assert j < |a| ==> s[j] == a[j];
      assert i > |a| ==> s[i] == b[i - |a| - 1];
      assert j > |a| ==> s[j] == b[j - |a| - 1];
    }
  }

  lemma InsertSorted(r: seq<HcEnt>, p: nat, e: HcEnt)
    requires SortedByHash(r) && p <= |r| && FitsAt(r, p, e.hash)
    ensures SortedByHash(r[..p] + ([e] + r[p..]))
    ensures multiset(r[..p] + ([e] + r[p..])) == multiset(r) + multiset{e}
  {
    FitsSplit(r, p, e.hash);
    JoinSorted(r[..p], e, r[p..]);
    MultisetAround(r[..p], e, r[p..]);
    assert r == r[..p] + r[p..];
  }

  /** Puts an entry at some place where the order stays. */
  method Insert(r: seq<HcEnt>, e: HcEnt) returns (r': seq<HcEnt>)
    requires SortedByHash(r)
    ensures SortedByHash(r') && multiset(r') == multiset(r) + multiset{e}
  {
    ghost var fit := SomeFit(r, e.hash);
    var p: nat :| p <= |r| && FitsAt(r, p, e.hash);
    InsertSorted(r, p, e);
    r' := r[..p] + ([e] + r[p..]);
  }

  /** The library sort: some hash-ordered permutation, entries of one hash in any order. */
  method SortByHash(es: seq<HcEnt>) returns (r: seq<HcEnt>)
    ensures multiset(r) == multiset(es) && SortedByHash(r)
  {
    r := [];
    for i := 0 to |es|
      invariant multiset(r) == multiset(es[..i]) && SortedByHash(r)
    {
      r := Insert(r, es[i]);
      assert es[..i + 1] == es[..i] + [es[i]];
    }
    assert es[..|es|] == es;
  }

  /** What one more plain row adds to the log. */
  lemma KeptPlainStep(before: seq<Counted>, rows: seq<Bytes>, valid: Mask, skipEmpty: bool, r: nat)
    requires r < |rows|
    ensures before + KeptPlain(rows, valid, skipEmpty, r + 1)
         == if Passes(valid, r) && !(skipEmpty && rows[r] == [])
            then before + KeptPlain(rows, valid, skipEmpty, r) + [Counted(rows[r], 1)]
            else before + KeptPlain(rows, valid, skipEmpty, r)
  {
    var kept := KeptPlain(rows, valid, skipEmpty, r);
    assert before + (kept + [Counted(rows[r], 1)]) == before + kept + [Counted(rows[r], 1)];
  }

  /** Growing the tail of a log. */
  lemma LogStep(before: seq<Counted>, tail: seq<Counted>, more: bool, c: Counted)
    ensures tail == [] ==> before + tail == before
    ensures more ==> before + tail + [c] == before + (tail + [c])
  {
  }

  lemma SkipPrefix(cnt: seq<nat>, n: nat, skip: nat)
    requires n <= |cnt|
    ensures (if skip < n then cnt[skip := 0] else cnt)[..n] == WithoutSkipped(cnt[..n], skip)
  {
  }

  lemma KeptNone(idx: seq<nat>, dict: seq<Bytes>, valid: Mask, skip: nat, n: nat)
    requires n <= |idx| && (|dict| == 0 || n == 0)
    ensures KeptRows(idx, dict, valid, skip, n) == []
  {
  }
}
