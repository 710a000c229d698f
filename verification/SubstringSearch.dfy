/** Counting the rows that contain a needle: searches by first byte, comparing whole words for short needles. */
module SubstringSearch {
  import opened Bits
  import opened Seqs
  import Codec = CompositeKey

  // ---- what is counted ----

  predicate OccursAt(h: Bytes, n: Bytes, p: nat) {
    p + |n| <= |h| && h[p..p + |n|] == n
  }

  predicate Occurs(h: Bytes, n: Bytes) {
    exists p :: 0 <= p <= |h| && OccursAt(h, n, p)
  }

  /** The rows of which "the needle occurs" differs from the negation flag. */
  function Count(rows: seq<Bytes>, n: Bytes, negated: bool): nat {
    if rows == [] then 0 else Count(Init(rows), n, negated) + (if Occurs(Last(rows), n) != negated then 1 else 0)
  }

  lemma EmptyOccurs(h: Bytes)
    ensures Occurs(h, [])
  {
    assert OccursAt(h, [], 0);
  }

  // ---- library calls ----

  /** The first position in [from, end) that holds `c`, or -1. */
  method MemChr(h: Bytes, c: byte, from: nat, end: nat) returns (p: int)
    requires from <= end <= |h|
    ensures p < 0 ==> forall i :: from <= i < end ==> h[i] != c
    ensures p >= 0 ==> from <= p < end && h[p] == c && forall i :: from <= i < p ==> h[i] != c
  {
    for i := from to end
      invariant forall j :: from <= j < i ==> h[j] != c
    {
      if h[i] == c {
        return i;
      }
    }
    p := -1;
  }

  /** A word of `w` bytes at `p`, little-endian. */
  function Load(h: Bytes, p: nat, w: nat): nat
    requires p + w <= |h|
  {
    Codec.FromLE(h[p..p + w])
  }

  /** Equal words are equal bytes. */
  lemma {:induction false} LoadInjective(a: Bytes, b: Bytes)
    requires |a| == |b|
    ensures Codec.FromLE(a) == Codec.FromLE(b) <==> a == b
  {
    if a != [] {
      LoadInjective(a[1..], b[1..]);
      assert a == [a[0]] + a[1..] && b == [b[0]] + b[1..];
    }
  }

  /** The low byte of a word is its first byte in memory. */
  lemma LowByte(n: Bytes, w: nat)
    requires 0 < w <= |n|
    ensures Load(n, 0, w) % 256 == n[0]
  {
    assert n[0..w][0] == n[0];
  }

  // ---- searches ----

  /** A failed candidate: no occurrence starts before the next byte. */
  ghost predicate NoneBefore(h: Bytes, n: Bytes, p: nat) {
    forall i :: 0 <= i < p ==> !OccursAt(h, n, i)
  }

  /** Positions without the needle's first byte start no occurrence. */
  lemma SkipTo(h: Bytes, n: Bytes, from: nat, p: nat)
    requires n != [] && NoneBefore(h, n, from) && p <= |h|
    requires forall i :: from <= i < p ==> h[i] != n[0]
    ensures NoneBefore(h, n, p)
  {
    forall i: nat | i < p ensures !OccursAt(h, n, i) {
      if i >= from && i + |n| <= |h| {
        assert h[i..i + |n|][0] == h[i];
      }
    }
  }

  /** Past the last start nothing can occur. */
  lemma NoneAtAll(h: Bytes, n: Bytes, end: nat)
    requires NoneBefore(h, n, end) && end + |n| > |h|
    ensures !Occurs(h, n)
  {
  }

  /** The first occurrence, or -1. */
  method FindSubstrLocal(h: Bytes, n: Bytes) returns (p: int)
    ensures p < 0 ==> !Occurs(h, n)
    ensures p >= 0 ==> OccursAt(h, n, p) && NoneBefore(h, n, p)
  {
    if |n| == 0 {
      return 0;
    }
    if |n| > |h| {
      return -1;
    }
    var from: nat, end := 0, |h| - |n| + 1;
    while from < end
      invariant from <= end && NoneBefore(h, n, from)
      decreases end - from
    {
      p := MemChr(h, n[0], from, end);
      if p < 0 {
        SkipTo(h, n, from, end);
        NoneAtAll(h, n, end);
        return;
      }
      SkipTo(h, n, from, p);
      if h[p..p + |n|] == n {
        return;
      }
      from := p + 1;
    }
    NoneAtAll(h, n, end);
    p := -1;
  }

  /** A needle of exactly one word: one comparison per candidate. */
  method ContainsWord(h: Bytes, word: nat, w: nat, ghost n: Bytes) returns (r: bool)
    requires 0 < w == |n| && word == Load(n, 0, w)
    ensures r == Occurs(h, n)
  {
    assert n[0..w] == n;
    if |h| < w {
      return false;
    }
    LowByte(n, w);
    var from: nat, end := 0, |h| - (w - 1);
    while from < end
      invariant from <= end && NoneBefore(h, n, from)
      decreases end - from
    {
      var p := MemChr(h, word % 256, from, end);
      if p < 0 {
        SkipTo(h, n, from, end);
        NoneAtAll(h, n, end);
        return false;
      }
      SkipTo(h, n, from, p);
      LoadInjective(h[p..p + w], n);
      if Load(h, p, w) == word {
        assert OccursAt(h, n, p);
        return true;
      }
      from := p + 1;
    }
    NoneAtAll(h, n, end);
    r := false;
  }

  /** A needle of a word and a tail: the tail is compared only where the word matches. */
  method ContainsWordAndTail(h: Bytes, word: nat, tail: Bytes, ghost n: Bytes) returns (r: bool)
    requires |n| == 4 + |tail| && word == Load(n, 0, 4) && tail == n[4..]
    ensures r == Occurs(h, n)
  {
    var len := 4 + |tail|;
    if |h| < len {
      return false;
    }
    LowByte(n, 4);
    var from: nat, end := 0, |h| - (len - 1);
    while from < end
      invariant from <= end && NoneBefore(h, n, from)
      decreases end - from
    {
      var p := MemChr(h, word % 256, from, end);
      if p < 0 {
        SkipTo(h, n, from, end);
        NoneAtAll(h, n, end);
        return false;
      }
      SkipTo(h, n, from, p);
      WordAndTail(h, n, p);
      if Load(h, p, 4) == word {
        if h[p + 4..p + 4 + |tail|] == tail {
          assert OccursAt(h, n, p);
          return true;
        }
      }
      from := p + 1;
    }
    NoneAtAll(h, n, end);
    r := false;
  }

  lemma WordAndTail(h: Bytes, n: Bytes, p: nat)
    requires |n| >= 4 && p + |n| <= |h|
    ensures OccursAt(h, n, p) <==> Load(h, p, 4) == Load(n, 0, 4) && h[p + 4..p + |n|] == n[4..]
  {
    LoadInjective(h[p..p + 4], n[0..4]);
    assert h[p..p + |n|] == h[p..p + 4] + h[p + 4..p + |n|];
    assert n == n[0..4] + n[4..];
    assert h[p..p + |n|][..4] == h[p..p + 4] && h[p..p + |n|][4..] == h[p + 4..p + |n|];
  }

  // ---- counting ----

  /** Whether one row contains the needle, by the search its length selects. */
  method Contains(h: Bytes, n: Bytes) returns (r: bool)
    requires n != []
    ensures r == Occurs(h, n)
  {
    if |n| == 4 {
      r := ContainsWord(h, Load(n, 0, 4), 4, n);
    } else if |n| == 5 || |n| == 6 || |n| == 7 {
      r := ContainsWordAndTail(h, Load(n, 0, 4), n[4..], n);
    } else if |n| == 8 {
      r := ContainsWord(h, Load(n, 0, 8), 8, n);
    } else {
      var p := -1;
      if |h| >= |n| {
        p := FindSubstrLocal(h, n);
      }
      r := p >= 0;
    }
  }

  lemma {:induction false} CountEmpty(rows: seq<Bytes>, negated: bool)
    ensures Count(rows, [], negated) == if negated then 0 else |rows|
  {
    if rows != [] {
      CountEmpty(Init(rows), negated);
      EmptyOccurs(Last(rows));
    }
  }

  /** LIKE '%needle%' over a plain column: the dispatch on the needle's length does not show. */
  method CountPlainLikeContains(rows: seq<Bytes>, n: Bytes, negated: bool) returns (local: nat)
    ensures local == Count(rows, n, negated)
  {
    if |n| == 0 {
      CountEmpty(rows, negated);
      return if negated then 0 else |rows|;
    }
    local := 0;
    for r := 0 to |rows|
      invariant local == Count(rows[..r], n, negated)
    {
      var m := Contains(rows[r], n);
      assert Init(rows[..r + 1]) == rows[..r];
      local := local + (if m != negated then 1 else 0);
    }
    assert rows[..|rows|] == rows;
  }

  /** The decoded column. */
  function Decode(dict: seq<Bytes>, indices: seq<nat>): seq<Bytes>
    requires forall r :: 0 <= r < |indices| ==> indices[r] < |dict|
  {
    seq(|indices|, r requires 0 <= r < |indices| => dict[indices[r]])
  }

  function Hit(h: Bytes, n: Bytes, negated: bool): nat {
    if Occurs(h, n) != negated then 1 else 0
  }

  /** One search per dictionary entry. */
  method MatchDict(dict: seq<Bytes>, n: Bytes, negated: bool) returns (matches: seq<nat>)
    ensures |matches| == |dict| && forall d :: 0 <= d < |dict| ==> matches[d] == Hit(dict[d], n, negated)
  {
    var hit, miss := if negated then 0 else 1, if negated then 1 else 0;
    matches := [];
    for d := 0 to |dict|
      invariant |matches| == d && forall i :: 0 <= i < d ==> matches[i] == Hit(dict[i], n, negated)
    {
      var m: nat;
      if |n| == 0 {
        EmptyOccurs(dict[d]);
        m := hit;
      } else if |dict[d]| < |n| {
        m := miss;
      } else {
        var p := FindSubstrLocal(dict[d], n);
        m := if p >= 0 then hit else miss;
      }
      matches := matches + [m];
    }
  }

  /** LIKE '%needle%' over a dictionary-encoded column counts the decoded column. */
  method CountDictLikeContains(dict: seq<Bytes>, indices: seq<nat>, n: Bytes, negated: bool) returns (local: nat)
    requires forall r :: 0 <= r < |indices| ==> indices[r] < |dict|
    ensures local == Count(Decode(dict, indices), n, negated)
  {
    var matches := MatchDict(dict, n, negated);
    local := 0;
    ghost var rows := Decode(dict, indices);
    for r := 0 to |indices|
      invariant local == Count(rows[..r], n, negated)
    {
      assert Init(rows[..r + 1]) == rows[..r];
      local := local + matches[indices[r]];
    }
    assert rows[..|indices|] == rows;
  }
}
