/** Facts about sequences that several components need. */
module Seqs {
  function Last<T>(s: seq<T>): T
    requires s != []
  {
    s[|s| - 1]
  }

  function Init<T>(s: seq<T>): seq<T>
    requires s != []
  {
    s[..|s| - 1]
  }

  /** The lists one after the other. */
  function Flatten<T>(parts: seq<seq<T>>): seq<T> {
    if parts == [] then [] else Flatten(Init(parts)) + Last(parts)
  }

  function Min(a: nat, b: nat): nat {
    if a < b then a else b
  }

  /** A permutation of `a + [u]` splits around one occurrence of `u`. */
  lemma SplitPermutation<T>(a: seq<T>, u: T, b: seq<T>) returns (b1: seq<T>, b2: seq<T>)
    requires multiset(a + [u]) == multiset(b)
    ensures b == b1 + ([u] + b2)
    ensures multiset(a) == multiset(b1 + b2)
  {
    assert u in multiset(a + [u]);
    var i :| 0 <= i < |b| && b[i] == u;
    b1, b2 := b[..i], b[i + 1..];
    assert b == b1 + ([u] + b2);
    MultisetAround(b1, u, b2);
    assert multiset(a) == multiset(a + [u]) - multiset{u};
    assert multiset(b1 + b2) == multiset(b) - multiset{u};
  }

  lemma MultisetAround<T>(b1: seq<T>, u: T, b2: seq<T>)
    ensures multiset(b1 + ([u] + b2)) == multiset(b1 + b2) + multiset{u}
  {
  }

  lemma MultisetConcat<T>(a: seq<T>, b: seq<T>)
    ensures multiset(a + b) == multiset(a) + multiset(b)
  {
  }

  lemma ConcatPermutes<T>(a: seq<T>, b: seq<T>, c: seq<T>, d: seq<T>)
    requires multiset(a) == multiset(c) && multiset(d) == multiset(c) + multiset(b)
    ensures multiset(a + b) == multiset(d)
  {
  }

  ghost predicate NoRepeats<T>(s: seq<T>) {
    forall i, j :: 0 <= i < j < |s| ==> s[i] != s[j]
  }

  lemma {:induction false} OccursOnce<T>(s: seq<T>, x: T)
    requires NoRepeats(s) && x in s
    ensures multiset(s)[x] == 1
  {
    assert s == Init(s) + [Last(s)];
    if x == Last(s) {
      assert x !in Init(s);
    } else {
      OccursOnce(Init(s), x);
    }
  }

  /** Two sequences with the same elements, each once, are permutations of each other. */
  lemma SameElements<T>(a: seq<T>, b: seq<T>)
    requires NoRepeats(a) && NoRepeats(b) && forall x :: x in a <==> x in b
    ensures multiset(a) == multiset(b)
  {
    forall x ensures multiset(a)[x] == multiset(b)[x] {
      if x in a {
        OccursOnce(a, x);
        OccursOnce(b, x);
      }
    }
  }

  /** A non-empty set has an element. */
  lemma Some<T>(s: set<T>) returns (x: T)
    requires s != {}
    ensures x in s
  {
    x :| x in s;
  }

  ghost function Elems<T>(s: seq<T>): set<T> {
    set x | x in s
  }

  ghost function Below(n: nat): (r: set<nat>)
    ensures forall x: nat :: x in r <==> x < n
  {
    if n == 0 then {} else Below(n - 1) + {n - 1}
  }

  /** Fewer than `n` numbers leave some number below `n` unused. */
  lemma Unused(s: seq<nat>, n: nat) returns (e: nat)
    requires |s| < n
    ensures e < n && e !in s
  {
    ElemsSize(s);
    BelowSize(n);
    if Below(n) <= Elems(s) {
      SubsetSize(Below(n), Elems(s));
    }
    e :| e in Below(n) && e !in Elems(s);
  }

  lemma SubsetSize<T>(a: set<T>, b: set<T>)
    requires a <= b
    ensures |a| <= |b|
  {
    assert b == a + (b - a);
  }

  lemma {:induction false} ElemsSize<T>(s: seq<T>)
    ensures |Elems(s)| <= |s|
  {
    if s != [] {
      ElemsSize(Init(s));
      assert Elems(s) == Elems(Init(s)) + {Last(s)};
    } else {
      assert Elems(s) == {};
    }
  }

  lemma {:induction false} BelowSize(n: nat)
    ensures |Below(n)| == n
  {
    if n > 0 {
      BelowSize(n - 1);
    }
  }
}

/**
 * A token that keeps an invariant folded. A predicate `P(x)` defined as `forall seal: Seal :: POpen(seal, x)` means
 * `POpen(Seal, x)`, since the type has one value; but the verifier looks inside only where `POpen(Seal, x)` is
 * mentioned, and carries `P(x)` through loops and calls as a bare fact everywhere else. An `Open` lemma unfolds it
 * where its parts are needed, a `Close` lemma folds it up again. It is used for invariants whose quantifiers would
 * otherwise be instantiated in every proof that merely passes them on.
 */
module Seals {
  datatype Seal = Seal
}

/** Row masks as the columnar operators pass them. */
module Masks {
  /** A validity or keep mask: absent means every row passes. */
  datatype Mask = AllRows | Rows(bits: seq<bool>)

  predicate Passes(m: Mask, r: nat) {
    m.Rows? ==> r < |m.bits| && m.bits[r]
  }

  predicate Covers(m: Mask, n: nat) {
    m.Rows? ==> n <= |m.bits|
  }
}
