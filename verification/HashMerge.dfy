/** The k-way merge of hash-sorted spills: one group per hash value, over a range of the hash space. */
module HashMerge {
  import opened Bits
  import opened HashCountThread
  import opened Seals
  import opened Seqs
  import opened TopK

  // ---- totals by hash ----

  function HashTotal(log: seq<Counted>, h: u64, hashOf: Bytes -> u64): int {
    if log == [] then 0
    else HashTotal(Init(log), h, hashOf) + (if hashOf(Last(log).key) == h then Last(log).count else 0)
  }

  lemma {:induction false} HashTotalConcat(a: seq<Counted>, b: seq<Counted>, h: u64, hashOf: Bytes -> u64)
    ensures HashTotal(a + b, h, hashOf) == HashTotal(a, h, hashOf) + HashTotal(b, h, hashOf)
  {
    if b == [] {
      assert a + b == a;
    } else {
      HashTotalConcat(a, Init(b), h, hashOf);
      assert Init(a + b) == a + Init(b);
    }
  }

  lemma {:induction false} NoHashNoTotal(log: seq<Counted>, h: u64, hashOf: Bytes -> u64)
    requires forall s :: Occurs(log, s) ==> hashOf(s) != h
    ensures HashTotal(log, h, hashOf) == 0
  {
    if log != [] {
      assert Occurs(log, Last(log).key);
      forall s | Occurs(Init(log), s) ensures hashOf(s) != h {
        var i :| 0 <= i < |Init(log)| && Init(log)[i].key == s;
        assert log[i].key == s;
        assert Occurs(log, s);
      }
      NoHashNoTotal(Init(log), h, hashOf);
    }
  }

  // ---- groups ----

  ghost predicate HasHash(out: seq<Counted>, h: u64, hashOf: Bytes -> u64) {
    exists i :: 0 <= i < |out| && hashOf(out[i].key) == h
  }

  /** Listed in strictly increasing hash order. */
  ghost predicate Rising(out: seq<Counted>, hashOf: Bytes -> u64) {
    forall i, j :: 0 <= i < j < |out| ==> hashOf(out[i].key) < hashOf(out[j].key)
  }

  predicate InRange(h: u64, lo: u64, hi: u64, last: bool) {
    lo <= h && (last || h < hi)
  }

  /** One group per hash value of the range that occurs, with that hash's exact total and one of its keys. */
  ghost predicate Grouped(out: seq<Counted>, log: seq<Counted>, lo: u64, hi: u64, last: bool, hashOf: Bytes -> u64) {
    && Rising(out, hashOf)
    && Exact(out, log, hashOf)
    && (forall i :: 0 <= i < |out| ==> InRange(hashOf(out[i].key), lo, hi, last))
    && Complete(out, log, lo, hi, last, hashOf)
  }

  ghost predicate Exact(out: seq<Counted>, log: seq<Counted>, hashOf: Bytes -> u64) {
    forall i :: 0 <= i < |out| ==> IsGroup(out[i], log, hashOf)
  }

  ghost predicate Complete(out: seq<Counted>, log: seq<Counted>, lo: u64, hi: u64, last: bool, hashOf: Bytes -> u64) {
    forall s :: Occurs(log, s) && InRange(hashOf(s), lo, hi, last) ==> HasHash(out, hashOf(s), hashOf)
  }

  ghost predicate IsGroup(g: Counted, log: seq<Counted>, hashOf: Bytes -> u64) {
    Occurs(log, g.key) && g.count == HashTotal(log, hashOf(g.key), hashOf)
  }

  /** The groups after one more entry whose hash is not below the last one's. */
  function Bump(out: seq<Counted>, c: Counted, hashOf: Bytes -> u64): (r: seq<Counted>)
    ensures r != []
  {
    if out != [] && hashOf(Last(out).key) == hashOf(c.key)
    then Init(out) + [Counted(Last(out).key, Last(out).count + c.count)]
    else out + [c]
  }

  /** `log'` is `log` with `c` put in somewhere. */
  ghost predicate Extends(log: seq<Counted>, log': seq<Counted>, c: Counted, hashOf: Bytes -> u64) {
    forall seal: Seal :: ExtendsOpen(seal, log, log', c, hashOf)
  }

  ghost predicate ExtendsOpen(seal: Seal, log: seq<Counted>, log': seq<Counted>, c: Counted, hashOf: Bytes -> u64) {
    && (forall h ::
          HashTotal(log', h, hashOf) == HashTotal(log, h, hashOf) + (if hashOf(c.key) == h then c.count else 0))
    && (forall s :: Occurs(log', s) <==> Occurs(log, s) || s == c.key)
  }

  lemma OpenExtends(log: seq<Counted>, log': seq<Counted>, c: Counted, hashOf: Bytes -> u64)
    requires Extends(log, log', c, hashOf)
    ensures ExtendsOpen(Seal, log, log', c, hashOf)
  {
  }

  lemma CloseExtends(log: seq<Counted>, log': seq<Counted>, c: Counted, hashOf: Bytes -> u64)
    requires ExtendsOpen(Seal, log, log', c, hashOf)
    ensures Extends(log, log', c, hashOf)
  {
    forall seal: Seal ensures ExtendsOpen(seal, log, log', c, hashOf) {
      assert seal == Seal;
    }
  }

  /** An entry with a hash above all others starts a group. */
  lemma GroupedNew(out: seq<Counted>, log: seq<Counted>, log': seq<Counted>, c: Counted, hashOf: Bytes -> u64)
    requires Grouped(out, log, 0, 0, true, hashOf) && Extends(log, log', c, hashOf)
    requires out != [] ==> hashOf(Last(out).key) < hashOf(c.key)
    ensures Grouped(out + [c], log', 0, 0, true, hashOf)
  {
    RisingNew(out, c, hashOf);
    FreshHash(out, log, hashOf(c.key), hashOf);
    ExactNew(out, log, log', c, hashOf);
    CompleteMore(out, out + [c], log, log', c, hashOf);
  }

  lemma RisingNew(out: seq<Counted>, c: Counted, hashOf: Bytes -> u64)
    requires Rising(out, hashOf) && (out != [] ==> hashOf(Last(out).key) < hashOf(c.key))
    ensures Rising(out + [c], hashOf)
    ensures forall i :: 0 <= i < |out| ==> hashOf(out[i].key) < hashOf(c.key)
  {
  }

  lemma ExactNew(out: seq<Counted>, log: seq<Counted>, log': seq<Counted>, c: Counted, hashOf: Bytes -> u64)
    requires Exact(out, log, hashOf) && Extends(log, log', c, hashOf)
    requires forall i :: 0 <= i < |out| ==> hashOf(out[i].key) != hashOf(c.key)
    requires HashTotal(log, hashOf(c.key), hashOf) == 0
    ensures Exact(out + [c], log', hashOf)
  {
    OpenExtends(log, log', c, hashOf);
    forall i | 0 <= i < |out + [c]| ensures IsGroup((out + [c])[i], log', hashOf) {
      if i < |out| {
        GroupKept(out[i], log, log', c, hashOf);
      }
    }
  }

  /** A hash no group has does not occur. */
  lemma FreshHash(out: seq<Counted>, log: seq<Counted>, h: u64, hashOf: Bytes -> u64)
    requires Complete(out, log, 0, 0, true, hashOf)
    requires forall i :: 0 <= i < |out| ==> hashOf(out[i].key) != h
    ensures HashTotal(log, h, hashOf) == 0
  {
    forall s | Occurs(log, s) ensures hashOf(s) != h {
      assert HasHash(out, hashOf(s), hashOf);
    }
    NoHashNoTotal(log, h, hashOf);
  }

  lemma GroupKept(g: Counted, log: seq<Counted>, log': seq<Counted>, c: Counted, hashOf: Bytes -> u64)
    requires IsGroup(g, log, hashOf) && Extends(log, log', c, hashOf) && hashOf(g.key) != hashOf(c.key)
    ensures IsGroup(g, log', hashOf)
  {
    OpenExtends(log, log', c, hashOf);
  }

  lemma CompleteMore(out: seq<Counted>, out': seq<Counted>, log: seq<Counted>, log': seq<Counted>, c: Counted,
                     hashOf: Bytes -> u64)
    requires Complete(out, log, 0, 0, true, hashOf) && Extends(log, log', c, hashOf)
    requires |out| <= |out'| && forall i :: 0 <= i < |out| ==> out'[i].key == out[i].key
    requires out' != [] && hashOf(Last(out').key) == hashOf(c.key)
    ensures Complete(out', log', 0, 0, true, hashOf)
  {
    OpenExtends(log, log', c, hashOf);
    forall s | Occurs(log', s) ensures HasHash(out', hashOf(s), hashOf) {
      assert hashOf(out'[|out'| - 1].key) == hashOf(c.key);
      if s != c.key {
        assert HasHash(out, hashOf(s), hashOf);
        SameHashes(out, out', hashOf(s), hashOf);
      }
    }
  }

  /** An entry with the last group's hash adds to that group. */
  lemma GroupedMore(out: seq<Counted>, log: seq<Counted>, log': seq<Counted>, c: Counted, hashOf: Bytes -> u64)
    requires Grouped(out, log, 0, 0, true, hashOf) && Extends(log, log', c, hashOf)
    requires out != [] && hashOf(Last(out).key) == hashOf(c.key)
    ensures Grouped(Bump(out, c, hashOf), log', 0, 0, true, hashOf)
  {
    var out' := Bump(out, c, hashOf);
    SameKeys(out, c, hashOf);
    ExactMore(out, log, log', c, hashOf);
    CompleteMore(out, out', log, log', c, hashOf);
  }

  lemma SameKeys(out: seq<Counted>, c: Counted, hashOf: Bytes -> u64)
    requires Rising(out, hashOf) && out != [] && hashOf(Last(out).key) == hashOf(c.key)
    ensures |Bump(out, c, hashOf)| == |out| && Rising(Bump(out, c, hashOf), hashOf)
    ensures forall i :: 0 <= i < |out| ==> Bump(out, c, hashOf)[i].key == out[i].key
  {
  }

  lemma ExactMore(out: seq<Counted>, log: seq<Counted>, log': seq<Counted>, c: Counted, hashOf: Bytes -> u64)
    requires Rising(out, hashOf) && Exact(out, log, hashOf) && Extends(log, log', c, hashOf)
    requires out != [] && hashOf(Last(out).key) == hashOf(c.key)
    ensures Exact(Bump(out, c, hashOf), log', hashOf)
  {
    var out' := Bump(out, c, hashOf);
    forall i | 0 <= i < |out'| ensures IsGroup(out'[i], log', hashOf) {
      if i < |out| - 1 {
        GroupKept(out[i], log, log', c, hashOf);
      } else {
        GroupGrows(Last(out), log, log', c, hashOf);
      }
    }
  }

  lemma GroupGrows(g: Counted, log: seq<Counted>, log': seq<Counted>, c: Counted, hashOf: Bytes -> u64)
    requires IsGroup(g, log, hashOf) && Extends(log, log', c, hashOf) && hashOf(g.key) == hashOf(c.key)
    ensures IsGroup(g.(count := g.count + c.count), log', hashOf)
  {
    OpenExtends(log, log', c, hashOf);
  }

  lemma SameHashes(out: seq<Counted>, out': seq<Counted>, h: u64, hashOf: Bytes -> u64)
    requires HasHash(out, h, hashOf) && |out| <= |out'|
    requires forall i :: 0 <= i < |out| ==> out'[i].key == out[i].key
    ensures HasHash(out', h, hashOf)
  {
    var i :| 0 <= i < |out| && hashOf(out[i].key) == h;
    assert out'[i].key == out[i].key;
  }

  /** Groups of two adjacent ranges, one after the other, are the groups of both. */
  lemma GroupedAdjacent(a: seq<Counted>, b: seq<Counted>, log: seq<Counted>, lo: u64, mid: u64, hi: u64, last: bool,
                        hashOf: Bytes -> u64)
    requires Grouped(a, log, lo, mid, false, hashOf) && Grouped(b, log, mid, hi, last, hashOf)
    requires lo <= mid && (last || mid <= hi)
    ensures Grouped(a + b, log, lo, hi, last, hashOf)
  {
    var out := a + b;
    forall i | 0 <= i < |out|
      ensures IsGroup(out[i], log, hashOf) && InRange(hashOf(out[i].key), lo, hi, last)
    {
      assert out[i] == if i < |a| then a[i] else b[i - |a|];
    }
    forall i, j | 0 <= i < j < |out| ensures hashOf(out[i].key) < hashOf(out[j].key) {
      assert out[i] == if i < |a| then a[i] else b[i - |a|];
      assert out[j] == if j < |a| then a[j] else b[j - |a|];
    }
    forall s | Occurs(log, s) && InRange(hashOf(s), lo, hi, last) ensures HasHash(out, hashOf(s), hashOf) {
      if hashOf(s) < mid {
        assert HasHash(a, hashOf(s), hashOf);
        var i :| 0 <= i < |a| && hashOf(a[i].key) == hashOf(s);
        assert out[i] == a[i];
      } else {
        assert HasHash(b, hashOf(s), hashOf);
        var i :| 0 <= i < |b| && hashOf(b[i].key) == hashOf(s);
        assert out[|a| + i] == b[i];
      }
    }
  }

  // ---- what the cursors have passed ----

  ghost predicate SpillsOk(spills: seq<Spill>, hashOf: Bytes -> u64) {
    forall t :: 0 <= t < |spills| ==> SpillOk(spills[t], hashOf) && SortedByHash(spills[t].entries)
  }

  /** Every spilled count, thread after thread. */
  function AllLog(spills: seq<Spill>): seq<Counted> {
    if spills == [] then [] else AllLog(Init(spills)) + SpillLog(Last(spills))
  }

  ghost predicate Cursors(spills: seq<Spill>, from: seq<nat>, to: seq<nat>) {
    && |from| == |to| == |spills|
    && forall t :: 0 <= t < |spills| ==> from[t] <= to[t] <= |spills[t].entries|
  }

  function Part(sp: Spill, i: nat, j: nat): seq<Counted>
    requires i <= j <= |sp.entries|
  {
    LogOf(sp.entries[i..j], sp.sbytes)
  }

  /** What lies between two cursors of every thread. */
  ghost function Passed(spills: seq<Spill>, from: seq<nat>, to: seq<nat>): seq<Counted>
    requires Cursors(spills, from, to)
  {
    if spills == [] then [] else Passed(Init(spills), Init(from), Init(to)) + Part(Last(spills), Last(from), Last(to))
  }

  function Entry(sp: Spill, i: nat): Counted
    requires i < |sp.entries|
  {
    Counted(EntKey(sp.entries[i], sp.sbytes), sp.entries[i].count)
  }

  lemma ExtendsAppend(log: seq<Counted>, c: Counted, hashOf: Bytes -> u64)
    ensures Extends(log, log + [c], c, hashOf)
  {
    assert Init(log + [c]) == log;
    forall s ensures Occurs(log + [c], s) <==> Occurs(log, s) || s == c.key {
      OccursAppend(log, c, s);
    }
    CloseExtends(log, log + [c], c, hashOf);
  }

  lemma ExtendsLeft(a: seq<Counted>, a': seq<Counted>, b: seq<Counted>, c: Counted, hashOf: Bytes -> u64)
    requires Extends(a, a', c, hashOf)
    ensures Extends(a + b, a' + b, c, hashOf)
  {
    OpenExtends(a, a', c, hashOf);
    ExtendsConcat(a, b, a', b, c, hashOf);
    CloseExtends(a + b, a' + b, c, hashOf);
  }

  lemma ExtendsRight(a: seq<Counted>, b: seq<Counted>, b': seq<Counted>, c: Counted, hashOf: Bytes -> u64)
    requires Extends(b, b', c, hashOf)
    ensures Extends(a + b, a + b', c, hashOf)
  {
    OpenExtends(b, b', c, hashOf);
    ExtendsConcat(a, b, a, b', c, hashOf);
    CloseExtends(a + b, a + b', c, hashOf);
  }

  lemma ExtendsConcat(a: seq<Counted>, b: seq<Counted>, a': seq<Counted>, b': seq<Counted>, c: Counted,
                      hashOf: Bytes -> u64)
    requires (ExtendsOpen(Seal, a, a', c, hashOf) && b' == b) || (a' == a && ExtendsOpen(Seal, b, b', c, hashOf))
    ensures ExtendsOpen(Seal, a + b, a' + b', c, hashOf)
  {
    forall h
      ensures HashTotal(a' + b', h, hashOf)
           == HashTotal(a + b, h, hashOf) + (if hashOf(c.key) == h then c.count else 0)
    {
      HashTotalConcat(a, b, h, hashOf);
      HashTotalConcat(a', b', h, hashOf);
    }
    forall s ensures Occurs(a' + b', s) <==> Occurs(a + b, s) || s == c.key {
      OccursConcat(a, b, s);
      OccursConcat(a', b', s);
    }
  }

  lemma AdvanceOne(sp: Spill, i: nat, j: nat, hashOf: Bytes -> u64)
    requires i <= j < |sp.entries|
    ensures Extends(Part(sp, i, j), Part(sp, i, j + 1), Entry(sp, j), hashOf)
  {
    var es := sp.entries[i..j + 1];
    assert Init(es) == sp.entries[i..j] && Last(es) == sp.entries[j];
    ExtendsAppend(Part(sp, i, j), Entry(sp, j), hashOf);
  }

  lemma CursorsStep(spills: seq<Spill>, from: seq<nat>, to: seq<nat>, t: nat)
    requires Cursors(spills, from, to) && t < |spills| && to[t] < |spills[t].entries|
    ensures Cursors(spills, from, to[t := to[t] + 1])
  {
  }

  lemma CursorsInit(spills: seq<Spill>, from: seq<nat>, to: seq<nat>)
    requires Cursors(spills, from, to) && spills != []
    ensures Cursors(Init(spills), Init(from), Init(to))
    ensures forall t :: 0 <= t < |spills| - 1 ==> Init(spills)[t] == spills[t] && Init(to)[t] == to[t]
  {
  }

  lemma PassedSplit(spills: seq<Spill>, from: seq<nat>, to: seq<nat>)
    requires Cursors(spills, from, to) && spills != []
    ensures Cursors(Init(spills), Init(from), Init(to)) && Last(from) <= Last(to) <= |Last(spills).entries|
    ensures Passed(spills, from, to)
         == Passed(Init(spills), Init(from), Init(to)) + Part(Last(spills), Last(from), Last(to))
  {
  }

  lemma AdvanceLast(spills: seq<Spill>, from: seq<nat>, to: seq<nat>, to': seq<nat>, c: Counted, hashOf: Bytes -> u64)
    requires Cursors(spills, from, to) && Cursors(spills, from, to') && spills != [] && Init(to') == Init(to)
    requires Extends(Part(Last(spills), Last(from), Last(to)), Part(Last(spills), Last(from), Last(to')), c, hashOf)
    ensures Extends(Passed(spills, from, to), Passed(spills, from, to'), c, hashOf)
  {
    PassedSplit(spills, from, to);
    PassedSplit(spills, from, to');
    ExtendsRight(Passed(Init(spills), Init(from), Init(to)), Part(Last(spills), Last(from), Last(to)),
                 Part(Last(spills), Last(from), Last(to')), c, hashOf);
  }

  lemma AdvanceInit(spills: seq<Spill>, from: seq<nat>, to: seq<nat>, to': seq<nat>, c: Counted, hashOf: Bytes -> u64)
    requires Cursors(spills, from, to) && Cursors(spills, from, to') && spills != [] && Last(to') == Last(to)
    requires Extends(Passed(Init(spills), Init(from), Init(to)), Passed(Init(spills), Init(from), Init(to')), c, hashOf)
    ensures Extends(Passed(spills, from, to), Passed(spills, from, to'), c, hashOf)
  {
    PassedSplit(spills, from, to);
    PassedSplit(spills, from, to');
    var b := Part(Last(spills), Last(from), Last(to));
    ExtendsLeft(Passed(Init(spills), Init(from), Init(to)), Passed(Init(spills), Init(from), Init(to')), b, c, hashOf);
  }

  lemma AdvanceLastCursor(spills: seq<Spill>, from: seq<nat>, to: seq<nat>, to': seq<nat>, hashOf: Bytes -> u64)
    requires Cursors(spills, from, to) && Cursors(spills, from, to') && spills != []
    requires Last(to) < |Last(spills).entries| && to' == Init(to) + [Last(to) + 1]
    ensures Extends(Passed(spills, from, to), Passed(spills, from, to'), Entry(Last(spills), Last(to)), hashOf)
  {
    assert Init(to') == Init(to);
    AdvanceOne(Last(spills), Last(from), Last(to), hashOf);
    AdvanceLast(spills, from, to, to', Entry(Last(spills), Last(to)), hashOf);
  }

  /** Advancing one cursor passes one more entry. */
  lemma {:induction false} Advance(spills: seq<Spill>, from: seq<nat>, to: seq<nat>, t: nat, hashOf: Bytes -> u64)
    requires Cursors(spills, from, to) && t < |spills| && to[t] < |spills[t].entries|
    ensures Cursors(spills, from, to[t := to[t] + 1])
    ensures Extends(Passed(spills, from, to), Passed(spills, from, to[t := to[t] + 1]), Entry(spills[t], to[t]), hashOf)
  {
    var to' := to[t := to[t] + 1];
    CursorsStep(spills, from, to, t);
    if t == |spills| - 1 {
      AdvanceLastCursor(spills, from, to, to', hashOf);
    } else {
      CursorsInit(spills, from, to);
      CursorsInit(spills, from, to');
      Advance(Init(spills), Init(from), Init(to), t, hashOf);
      assert Init(to') == Init(to)[t := to[t] + 1];
      AdvanceInit(spills, from, to, to', Entry(spills[t], to[t]), hashOf);
    }
  }

  lemma {:induction false} NothingPassed(spills: seq<Spill>, from: seq<nat>)
    requires Cursors(spills, from, from)
    ensures Passed(spills, from, from) == []
  {
    if spills != [] {
      NothingPassed(Init(spills), Init(from));
    }
  }

  // ---- ranges of a sorted spill ----

  /** Position `p` splits an ordered list at hash `h`. */
  ghost predicate SplitsAt(es: seq<HcEnt>, p: nat, h: u64) {
    && p <= |es|
    && (forall i :: 0 <= i < p ==> es[i].hash < h)
    && (forall i :: p <= i < |es| ==> es[i].hash >= h)
  }

  /** The library lower bound. */
  method LowerBound(es: seq<HcEnt>, h: u64) returns (p: nat)
    requires SortedByHash(es)
    ensures SplitsAt(es, p, h)
  {
    p := 0;
    var n: nat := |es|;
    while p < n
      invariant p <= n <= |es|
      invariant forall i :: 0 <= i < p ==> es[i].hash < h
      invariant forall i :: n <= i < |es| ==> es[i].hash >= h
    {
      var mid := p + (n - p) / 2;
      if es[mid].hash < h {
        p := mid + 1;
      } else {
        n := mid;
      }
    }
  }

  /** The cursors delimit the range in every spill. */
  ghost predicate Delimits(spills: seq<Spill>, from: seq<nat>, to: seq<nat>, lo: u64, hi: u64, last: bool) {
    && |from| == |to| == |spills|
    && forall t :: 0 <= t < |spills| ==>
        SplitsAt(spills[t].entries, from[t], lo)
        && (if last then to[t] == |spills[t].entries| else SplitsAt(spills[t].entries, to[t], hi))
  }

  lemma LogKeys(es: seq<HcEnt>, sbytes: Bytes, hashOf: Bytes -> u64, lo: nat, hi: nat)
    requires forall e :: e in es ==> EntryOk(e, sbytes, hashOf) && lo <= e.hash < hi
    ensures forall s :: Occurs(LogOf(es, sbytes), s) ==> lo <= hashOf(s) < hi
  {
    forall s | Occurs(LogOf(es, sbytes), s) ensures lo <= hashOf(s) < hi {
      LogOfOccurs(es, sbytes, s);
      var e :| e in es && EntKey(e, sbytes) == s;
    }
  }

  /** `part` is the part of `log` whose keys hash into the range. */
  ghost predicate IsPart(part: seq<Counted>, log: seq<Counted>, lo: u64, hi: u64, last: bool, hashOf: Bytes -> u64) {
    && (forall h :: InRange(h, lo, hi, last) ==> HashTotal(part, h, hashOf) == HashTotal(log, h, hashOf))
    && (forall s :: Occurs(part, s) <==> Occurs(log, s) && InRange(hashOf(s), lo, hi, last))
  }

  lemma PartOfSpill(sp: Spill, i: nat, j: nat, lo: u64, hi: u64, last: bool, hashOf: Bytes -> u64)
    requires SpillOk(sp, hashOf) && (last || lo <= hi)
    requires SplitsAt(sp.entries, i, lo)
    requires if last then j == |sp.entries| else SplitsAt(sp.entries, j, hi)
    ensures i <= j && IsPart(Part(sp, i, j), SpillLog(sp), lo, hi, last, hashOf)
  {
    var es := sp.entries;
    assert j < |es| ==> es[j].hash >= hi;
    SpillInThree(sp, i, j);
    var a, b, c := LogOf(es[..i], sp.sbytes), Part(sp, i, j), LogOf(es[j..], sp.sbytes);
    LogKeys(es[..i], sp.sbytes, hashOf, 0, lo);
    LogKeys(es[i..j], sp.sbytes, hashOf, lo, if last then TWO_64 else hi);
    LogKeys(es[j..], sp.sbytes, hashOf, if last then TWO_64 else hi, TWO_64);
    MiddlePart(a, b, c, lo, hi, last, hashOf);
  }

  lemma SpillInThree(sp: Spill, i: nat, j: nat)
    requires i <= j <= |sp.entries|
    ensures SpillLog(sp) == LogOf(sp.entries[..i], sp.sbytes) + Part(sp, i, j) + LogOf(sp.entries[j..], sp.sbytes)
  {
    var es := sp.entries;
    assert es == es[..i] + es[i..j] + es[j..];
    LogConcat(es[..i], es[i..j], sp.sbytes);
    LogConcat(es[..i] + es[i..j], es[j..], sp.sbytes);
  }

  lemma MiddlePart(a: seq<Counted>, b: seq<Counted>, c: seq<Counted>, lo: u64, hi: u64, last: bool,
                   hashOf: Bytes -> u64)
    requires forall s :: Occurs(a, s) ==> hashOf(s) < lo
    requires forall s :: Occurs(b, s) ==> InRange(hashOf(s), lo, hi, last)
    requires forall s :: Occurs(c, s) ==> !last && hi <= hashOf(s)
    ensures IsPart(b, a + b + c, lo, hi, last, hashOf)
  {
    forall h | InRange(h, lo, hi, last) ensures HashTotal(a + b + c, h, hashOf) == HashTotal(b, h, hashOf) {
      HashTotalConcat(a + b, c, h, hashOf);
      HashTotalConcat(a, b, h, hashOf);
      NoHashNoTotal(a, h, hashOf);
      NoHashNoTotal(c, h, hashOf);
    }
    forall s ensures Occurs(b, s) <==> Occurs(a + b + c, s) && InRange(hashOf(s), lo, hi, last) {
      OccursConcat(a + b, c, s);
      OccursConcat(a, b, s);
    }
  }

  lemma IsPartConcat(a: seq<Counted>, b: seq<Counted>, a': seq<Counted>, b': seq<Counted>, lo: u64, hi: u64, last: bool,
                     hashOf: Bytes -> u64)
    requires IsPart(a, a', lo, hi, last, hashOf) && IsPart(b, b', lo, hi, last, hashOf)
    ensures IsPart(a + b, a' + b', lo, hi, last, hashOf)
  {
    forall h | InRange(h, lo, hi, last) ensures HashTotal(a + b, h, hashOf) == HashTotal(a' + b', h, hashOf) {
      HashTotalConcat(a, b, h, hashOf);
      HashTotalConcat(a', b', h, hashOf);
    }
    forall s ensures Occurs(a + b, s) <==> Occurs(a' + b', s) && InRange(hashOf(s), lo, hi, last) {
      OccursConcat(a, b, s);
      OccursConcat(a', b', s);
    }
  }

  /** Between the range's cursors lie exactly the counts whose hash is in the range. */
  lemma {:induction false} PassedIsPart(spills: seq<Spill>, from: seq<nat>, to: seq<nat>, lo: u64, hi: u64, last: bool,
                                        hashOf: Bytes -> u64)
    requires SpillsOk(spills, hashOf) && Delimits(spills, from, to, lo, hi, last) && (last || lo <= hi)
    ensures Cursors(spills, from, to)
    ensures IsPart(Passed(spills, from, to), AllLog(spills), lo, hi, last, hashOf)
  {
    forall t | 0 <= t < |spills| ensures from[t] <= to[t] <= |spills[t].entries| {
      PartOfSpill(spills[t], from[t], to[t], lo, hi, last, hashOf);
    }
    if spills == [] {
      assert forall s :: !Occurs([], s);
    } else {
      PassedIsPart(Init(spills), Init(from), Init(to), lo, hi, last, hashOf);
      PartOfSpill(Last(spills), Last(from), Last(to), lo, hi, last, hashOf);
      IsPartConcat(Passed(Init(spills), Init(from), Init(to)), Part(Last(spills), Last(from), Last(to)),
                   AllLog(Init(spills)), SpillLog(Last(spills)), lo, hi, last, hashOf);
    }
  }

  lemma GroupedPart(out: seq<Counted>, part: seq<Counted>, log: seq<Counted>, lo: u64, hi: u64, last: bool,
                    hashOf: Bytes -> u64)
    requires Grouped(out, part, 0, 0, true, hashOf) && IsPart(part, log, lo, hi, last, hashOf)
    ensures Grouped(out, log, lo, hi, last, hashOf)
  {
  }

  // ---- stored spills ----

  /** The spills as they are stored are the whole ones, cut. */
  ghost predicate Stored(spills: seq<Spill>, wholes: seq<Spill>) {
    |spills| == |wholes| && forall t :: 0 <= t < |spills| ==> spills[t] == Cut(wholes[t])
  }

  /** The cut leaves the number of entries, their hashes and their counts. */
  lemma StoredEntry(spills: seq<Spill>, wholes: seq<Spill>, t: nat)
    requires Stored(spills, wholes) && t < |spills|
    ensures |spills[t].entries| == |wholes[t].entries|
    ensures forall i :: 0 <= i < |spills[t].entries| ==>
      spills[t].entries[i].hash == wholes[t].entries[i].hash && spills[t].entries[i].count == wholes[t].entries[i].count
  {
    assert spills[t] == Cut(wholes[t]);
  }

  lemma StoredCursors(spills: seq<Spill>, wholes: seq<Spill>, from: seq<nat>, to: seq<nat>)
    requires Stored(spills, wholes)
    ensures Cursors(spills, from, to) <==> Cursors(wholes, from, to)
  {
    forall t | 0 <= t < |spills| ensures |spills[t].entries| == |wholes[t].entries| {
      StoredEntry(spills, wholes, t);
    }
  }

  lemma StoredSmallest(spills: seq<Spill>, wholes: seq<Spill>, cur: seq<nat>, end: seq<nat>, mt: nat)
    requires Stored(spills, wholes) && Cursors(spills, cur, end) && Cursors(wholes, cur, end)
    requires Smallest(spills, cur, end, mt)
    ensures Smallest(wholes, cur, end, mt)
  {
    StoredEntry(spills, wholes, mt);
    forall u | 0 <= u < |wholes| && cur[u] < end[u]
      ensures wholes[mt].entries[cur[mt]].hash <= wholes[u].entries[cur[u]].hash
    {
      StoredEntry(spills, wholes, u);
    }
  }

  lemma StoredDelimits(spills: seq<Spill>, wholes: seq<Spill>, from: seq<nat>, to: seq<nat>, lo: u64, hi: u64,
                       last: bool)
    requires Stored(spills, wholes) && Delimits(spills, from, to, lo, hi, last)
    ensures Delimits(wholes, from, to, lo, hi, last)
  {
    forall t | 0 <= t < |wholes|
      ensures SplitsAt(wholes[t].entries, from[t], lo)
      ensures if last then to[t] == |wholes[t].entries| else SplitsAt(wholes[t].entries, to[t], hi)
    {
      StoredEntry(spills, wholes, t);
    }
  }

  lemma StoredSorted(spills: seq<Spill>, wholes: seq<Spill>, t: nat, hashOf: Bytes -> u64)
    requires Stored(spills, wholes) && SpillsOk(wholes, hashOf) && t < |spills|
    ensures SortedByHash(spills[t].entries)
  {
    StoredEntry(spills, wholes, t);
  }

  /** Groups as they are read from the stored spills: totals are exact, and so are the keys if nothing was cut. */
  ghost predicate SameTotals(shown: seq<Counted>, groups: seq<Counted>, exact: bool) {
    && |shown| == |groups|
    && (forall i :: 0 <= i < |shown| ==> shown[i].count == groups[i].count)
    && (exact ==> shown == groups)
  }

  // ---- the merge loop ----

  /** The groups so far are those of what the cursors have passed, and no smaller hash is left before the ends. */
  ghost predicate Merging(spills: seq<Spill>, from: seq<nat>, cur: seq<nat>, end: seq<nat>, out: seq<Counted>,
                          hashOf: Bytes -> u64) {
    forall seal: Seal :: MergingOpen(seal, spills, from, cur, end, out, hashOf)
  }

  ghost predicate MergingOpen(seal: Seal, spills: seq<Spill>, from: seq<nat>, cur: seq<nat>, end: seq<nat>,
                              out: seq<Counted>, hashOf: Bytes -> u64) {
    && SpillsOk(spills, hashOf)
    && Cursors(spills, from, cur) && Cursors(spills, cur, end)
    && Grouped(out, Passed(spills, from, cur), 0, 0, true, hashOf)
    && (out != [] ==> forall t :: 0 <= t < |spills| && cur[t] < end[t] ==>
          hashOf(Last(out).key) <= spills[t].entries[cur[t]].hash)
  }

  lemma OpenMerging(spills: seq<Spill>, from: seq<nat>, cur: seq<nat>, end: seq<nat>, out: seq<Counted>,
                    hashOf: Bytes -> u64)
    requires Merging(spills, from, cur, end, out, hashOf)
    ensures MergingOpen(Seal, spills, from, cur, end, out, hashOf)
  {
  }

  lemma CloseMerging(spills: seq<Spill>, from: seq<nat>, cur: seq<nat>, end: seq<nat>, out: seq<Counted>,
                     hashOf: Bytes -> u64)
    requires MergingOpen(Seal, spills, from, cur, end, out, hashOf)
    ensures Merging(spills, from, cur, end, out, hashOf)
  {
    forall seal: Seal ensures MergingOpen(seal, spills, from, cur, end, out, hashOf) {
      assert seal == Seal;
    }
  }

  /** Before the first entry. */
  lemma MergeStart(spills: seq<Spill>, from: seq<nat>, end: seq<nat>, hashOf: Bytes -> u64)
    requires SpillsOk(spills, hashOf) && Cursors(spills, from, end)
    ensures Merging(spills, from, from, end, [], hashOf)
  {
    NothingPassed(spills, from);
    assert forall s :: !Occurs([], s);
    CloseMerging(spills, from, from, end, [], hashOf);
  }

  /** Thread `t` has an entry left, and no thread has a smaller next hash. */
  ghost predicate Smallest(spills: seq<Spill>, cur: seq<nat>, end: seq<nat>, t: nat)
    requires Cursors(spills, cur, end)
  {
    && t < |spills| && cur[t] < end[t]
    && forall u :: 0 <= u < |spills| && cur[u] < end[u] ==>
        spills[t].entries[cur[t]].hash <= spills[u].entries[cur[u]].hash
  }

  /** Taking the smallest entry. */
  lemma MergeStep(spills: seq<Spill>, from: seq<nat>, cur: seq<nat>, end: seq<nat>, out: seq<Counted>, t: nat,
                  hashOf: Bytes -> u64)
    requires Cursors(spills, cur, end) && Smallest(spills, cur, end, t)
    requires Merging(spills, from, cur, end, out, hashOf)
    ensures spills[t].entries[cur[t]].hash == hashOf(Entry(spills[t], cur[t]).key)
    ensures Cursors(spills, cur[t := cur[t] + 1], end)
    ensures Merging(spills, from, cur[t := cur[t] + 1], end, Bump(out, Entry(spills[t], cur[t]), hashOf), hashOf)
  {
    OpenMerging(spills, from, cur, end, out, hashOf);
    var cur', c := cur[t := cur[t] + 1], Entry(spills[t], cur[t]);
    var out' := Bump(out, c, hashOf);
    assert spills[t].entries[cur[t]] in spills[t].entries;
    Advance(spills, from, cur, t, hashOf);
    if out != [] && hashOf(Last(out).key) == hashOf(c.key) {
      GroupedMore(out, Passed(spills, from, cur), Passed(spills, from, cur'), c, hashOf);
    } else {
      GroupedNew(out, Passed(spills, from, cur), Passed(spills, from, cur'), c, hashOf);
    }
    CloseMerging(spills, from, cur', end, out', hashOf);
  }

  /** When no entry is left, the groups are those of the range. */
  lemma MergeEnd(spills: seq<Spill>, from: seq<nat>, cur: seq<nat>, end: seq<nat>, lo: u64, hi: u64, last: bool,
                 out: seq<Counted>, hashOf: Bytes -> u64)
    requires Merging(spills, from, cur, end, out, hashOf)
    requires Cursors(spills, cur, end) && forall t :: 0 <= t < |spills| ==> cur[t] >= end[t]
    requires Delimits(spills, from, end, lo, hi, last) && (last || lo <= hi)
    ensures Grouped(out, AllLog(spills), lo, hi, last, hashOf)
  {
    OpenMerging(spills, from, cur, end, out, hashOf);
    assert cur == end;
    PassedIsPart(spills, from, end, lo, hi, last, hashOf);
    GroupedPart(out, Passed(spills, from, end), AllLog(spills), lo, hi, last, hashOf);
  }

  /** How many entries are left. */
  ghost function Left(cur: seq<nat>, end: seq<nat>): int
    requires |cur| == |end|
  {
    if cur == [] then 0 else Left(Init(cur), Init(end)) + Last(end) - Last(cur)
  }

  lemma {:induction false} LeftStep(cur: seq<nat>, end: seq<nat>, t: nat)
    requires |cur| == |end| && t < |cur|
    ensures Left(cur[t := cur[t] + 1], end) == Left(cur, end) - 1
  {
    if t == |cur| - 1 {
      assert Init(cur[t := cur[t] + 1]) == Init(cur);
    } else {
      LeftStep(Init(cur), Init(end), t);
      assert Init(cur[t := cur[t] + 1]) == Init(cur)[t := cur[t] + 1];
    }
  }

  lemma {:induction false} LeftNonNegative(spills: seq<Spill>, cur: seq<nat>, end: seq<nat>)
    requires Cursors(spills, cur, end)
    ensures Left(cur, end) >= 0
  {
    if cur != [] {
      LeftNonNegative(Init(spills), Init(cur), Init(end));
    }
  }

  /** The cursors of a range, one pair per thread. */
  method FindRange(spills: seq<Spill>, ghost wholes: seq<Spill>, lo: u64, hi: u64, last: bool,
                   ghost hashOf: Bytes -> u64)
    returns (cur: seq<nat>, end: seq<nat>)
    requires SpillsOk(wholes, hashOf) && Stored(spills, wholes) && (last || lo <= hi)
    ensures Delimits(wholes, cur, end, lo, hi, last) && Cursors(wholes, cur, end) && Cursors(spills, cur, end)
  {
    cur, end := [], [];
    for t := 0 to |spills|
      invariant Delimits(spills[..t], cur, end, lo, hi, last)
    {
      StoredSorted(spills, wholes, t, hashOf);
      var i := LowerBound(spills[t].entries, lo);
      var j := |spills[t].entries|;
      if !last {
        j := LowerBound(spills[t].entries, hi);
      }
      cur, end := cur + [i], end + [j];
    }
    assert spills[..|spills|] == spills;
    StoredDelimits(spills, wholes, cur, end, lo, hi, last);
    PassedIsPart(wholes, cur, end, lo, hi, last, hashOf);
    StoredCursors(spills, wholes, cur, end);
  }

  /** The first thread with the smallest next hash, or -1 when every range is exhausted. */
  method NextThread(spills: seq<Spill>, cur: seq<nat>, end: seq<nat>) returns (mt: int)
    requires Cursors(spills, cur, end)
    ensures mt < 0 ==> forall t :: 0 <= t < |spills| ==> cur[t] >= end[t]
    ensures mt >= 0 ==> Smallest(spills, cur, end, mt)
  {
    mt := -1;
    var mh: u64 := 0;
    for t := 0 to |spills|
      invariant -1 <= mt < t
      invariant mt < 0 ==> forall u :: 0 <= u < t ==> cur[u] >= end[u]
      invariant mt >= 0 ==> cur[mt] < end[mt] && mh == spills[mt].entries[cur[mt]].hash
      invariant mt >= 0 ==> forall u :: 0 <= u < t && cur[u] < end[u] ==> mh <= spills[u].entries[cur[u]].hash
    {
      if cur[t] < end[t] {
        var h := spills[t].entries[cur[t]].hash;
        if mt < 0 || h < mh {
          mh, mt := h, t;
        }
      }
    }
  }

  predicate ByTotal(a: Counted, b: Counted) {
    a.count > b.count
  }

  /** Where a merge puts its groups: a list, or the k-entry heap. */
  class Emitter {
    const k: int
    const heap: BoundedHeap<Counted>
    var out: seq<Counted>
    ghost var emitted: seq<Counted>

    ghost predicate Valid()
      reads this, heap
    {
      match k > 0
      case false => out == emitted
      case true => heap.Valid() && heap.k == k && heap.better == ByTotal && heap.seen == emitted
    }

    constructor (k: int)
      ensures Valid() && fresh(heap) && this.k == k && emitted == []
    {
      this.k := k;
      heap := new BoundedHeap(if k > 0 then k else 1, ByTotal);
      out, emitted := [], [];
    }

    method Emit(g: Counted)
      requires Valid()
      modifies this, heap
      ensures Valid() && emitted == old(emitted) + [g]
    {
      if k <= 0 {
        out := out + [g];
      } else {
        heap.Offer(g);
      }
      emitted := emitted + [g];
    }

    /** The list, or the drained heap, worst first. */
    method Finish() returns (r: seq<Counted>)
      requires Valid()
      modifies heap
      ensures k <= 0 ==> r == emitted
      ensures k > 0 ==> Selects(multiset(r), multiset(emitted), k, ByTotal) && WorstFirst(r, ByTotal)
    {
      r := out;
      if k > 0 {
        r := heap.Drain();
      }
    }
  }

  /** Adds an entry to the open group, or emits that group and opens one for the entry; `c` is the entry as read. */
  method TakeEntry(emitter: Emitter, have: bool, curHash: u64, group: Counted, h: u64, c: Counted,
                   ghost entry: Counted, ghost groups: seq<Counted>, ghost exact: bool, ghost hashOf: Bytes -> u64)
    returns (group': Counted)
    requires emitter.Valid() && Pending(have, curHash, group, emitter.emitted, groups, exact, hashOf)
    requires h == hashOf(entry.key) && c.count == entry.count && (exact ==> c == entry)
    modifies emitter, emitter.heap
    ensures emitter.Valid()
    ensures Pending(true, h, group', emitter.emitted, Bump(groups, entry, hashOf), exact, hashOf)
  {
    if have && h == curHash {
      group' := group.(count := group.count + c.count);
      SameTotalsMore(emitter.emitted, group, groups, entry, exact);
    } else {
      if have {
        emitter.Emit(group);
      }
      group' := c;
    }
  }

  lemma SameTotalsMore(emitted: seq<Counted>, group: Counted, groups: seq<Counted>, entry: Counted, exact: bool)
    requires groups != [] && SameTotals(emitted + [group], groups, exact)
    ensures SameTotals(emitted + [group.(count := group.count + entry.count)],
                  Init(groups) + [Counted(Last(groups).key, Last(groups).count + entry.count)], exact)
  {
    assert (emitted + [group])[|emitted|] == group;
    assert exact ==> Init(groups) == emitted;
    forall i | 0 <= i < |emitted| ensures emitted[i].count == groups[i].count {
      assert (emitted + [group])[i] == emitted[i];
    }
  }

  /** All of the groups, or the k largest, smallest first. */
  ghost predicate Emits(out: seq<Counted>, groups: seq<Counted>, k: int) {
    match k > 0
    case false => out == groups
    case true => Selects(multiset(out), multiset(groups), k, ByTotal) && WorstFirst(out, ByTotal)
  }

  /** Merges one hash range of all threads: every group of the range, or its k largest (worst first). */
  method MergeRange(spills: seq<Spill>, ghost wholes: seq<Spill>, lo: u64, hi: u64, last: bool, k: int,
                    ghost hashOf: Bytes -> u64)
    returns (out: seq<Counted>)
    requires SpillsOk(wholes, hashOf) && Stored(spills, wholes) && (last || lo <= hi)
    ensures exists groups, shown ::
      && Grouped(groups, AllLog(wholes), lo, hi, last, hashOf)
      && SameTotals(shown, groups, spills == wholes) && Emits(out, shown, k)
  {
    var cur, end := FindRange(spills, wholes, lo, hi, last, hashOf);
    ghost var from := cur;
    var emitter := new Emitter(k);
    var have, curHash: u64, group := false, 0, Counted([], 0);
    ghost var groups: seq<Counted> := [];
    MergeStart(wholes, from, end, hashOf);
    while true
      invariant Cursors(spills, cur, end) && Cursors(wholes, cur, end)
      invariant Merging(wholes, from, cur, end, groups, hashOf)
      invariant emitter.Valid() && fresh(emitter) && fresh(emitter.heap) && emitter.k == k
      invariant Pending(have, curHash, group, emitter.emitted, groups, spills == wholes, hashOf)
      decreases Left(cur, end)
    {
      LeftNonNegative(spills, cur, end);
      var mt := NextThread(spills, cur, end);
      if mt < 0 {
        break;
      }
      var e := spills[mt].entries[cur[mt]];
      var c := Counted(EntKey(e, spills[mt].sbytes), e.count);
      ghost var entry := Entry(wholes[mt], cur[mt]);
      StoredEntry(spills, wholes, mt);
      StoredSmallest(spills, wholes, cur, end, mt);
      MergeStep(wholes, from, cur, end, groups, mt, hashOf);
      LeftStep(cur, end, mt);
      cur := cur[mt := cur[mt] + 1];
      StoredCursors(spills, wholes, cur, end);
      group := TakeEntry(emitter, have, curHash, group, e.hash, c, entry, groups, spills == wholes, hashOf);
      have, curHash := true, e.hash;
      groups := Bump(groups, entry, hashOf);
    }
    MergeEnd(wholes, from, cur, end, lo, hi, last, groups, hashOf);
    if have {
      emitter.Emit(group);
    }
    out := emitter.Finish();
    assert SameTotals(emitter.emitted, groups, spills == wholes) && Emits(out, emitter.emitted, k);
  }

  /** The open group is the last one; the ones before it have been emitted. */
  ghost predicate Pending(have: bool, curHash: u64, group: Counted, emitted: seq<Counted>, groups: seq<Counted>,
                          exact: bool, hashOf: Bytes -> u64) {
    match have
    case false => emitted == [] && groups == []
    case true => groups != [] && SameTotals(emitted + [group], groups, exact) && hashOf(Last(groups).key) == curHash
  }
}
