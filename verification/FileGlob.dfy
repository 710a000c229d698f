/** Glob matching with '*' and '?' by a greedy loop that backtracks to the last star only. */
module FileGlob {
  // ---- the declarative meaning ----

  /** `p` from `i` matches `s` from `j`: '*' stands for any substring, '?' for any one character. */
  ghost predicate MatchesAt(p: string, i: nat, s: string, j: nat)
    requires i <= |p| && j <= |s|
    decreases |p| - i, 0
  {
    if i == |p| then j == |s|
    else if p[i] == '*' then MatchesSuffix(p, i + 1, s, j)
    else j < |s| && (p[i] == '?' || p[i] == s[j]) && MatchesAt(p, i + 1, s, j + 1)
  }

  /** `p` from `i` matches some suffix of `s` that starts at `j` or later. */
  ghost predicate MatchesSuffix(p: string, i: nat, s: string, j: nat)
    requires i <= |p| && j <= |s|
    decreases |p| - i, 1
  {
    exists k :: j <= k <= |s| && MatchesAt(p, i, s, k)
  }

  ghost predicate Matches(p: string, s: string) {
    MatchesAt(p, 0, s, 0)
  }

  // ---- the loop as a function of its variables ----

  /** Only stars are left. */
  function OnlyStars(p: string, pi: nat): bool
    requires pi <= |p|
    decreases |p| - pi
  {
    pi == |p| || (p[pi] == '*' && OnlyStars(p, pi + 1))
  }

  /** The loop from a state: pattern and string positions, and those of the last star (-1: none yet). */
  predicate Greedy(p: string, s: string, pi: nat, si: nat, starP: int, starS: nat)
    requires State(p, s, pi, si, starP, starS)
    decreases |p| - starP, |s| - starS, |s| - si
  {
    if si == |s| then OnlyStars(p, pi)
    else if pi < |p| && (p[pi] == s[si] || p[pi] == '?') then Greedy(p, s, pi + 1, si + 1, starP, starS)
    else if pi < |p| && p[pi] == '*' then Greedy(p, s, pi + 1, si, pi, si)
    else if starP >= 0 then Greedy(p, s, starP + 1, starS + 1, starP, starS + 1)
    else false
  }

  predicate State(p: string, s: string, pi: nat, si: nat, starP: int, starS: nat) {
    && pi <= |p| && starS <= si <= |s|
    && -1 <= starP < pi + 1 && (starP >= 0 ==> starP < pi)
  }

  predicate GreedyMatch(p: string, s: string) {
    Greedy(p, s, 0, 0, -1, 0)
  }

  /** The loop itself. */
  method Match(pattern: string, str: string) returns (r: bool)
    ensures r == GreedyMatch(pattern, str)
    ensures '*' !in str ==> r == Matches(pattern, str)
  {
    if '*' !in str {
      GreedyExact(pattern, str);
    }
    var pi: nat, si: nat := 0, 0;
    var starP: int, starS: nat := -1, 0;
    while si < |str|
      invariant 0 <= si && 0 <= starS && State(pattern, str, pi, si, starP, starS)
      invariant GreedyMatch(pattern, str) == Greedy(pattern, str, pi, si, starP, starS)
      decreases |pattern| - starP, |str| - starS, |str| - si
    {
      if pi < |pattern| && (pattern[pi] == str[si] || pattern[pi] == '?') {
        pi, si := pi + 1, si + 1;
      } else if pi < |pattern| && pattern[pi] == '*' {
        starP, pi, starS := pi, pi + 1, si;
      } else if starP != -1 {
        pi, starS := starP + 1, starS + 1;
        si := starS;
      } else {
        return false;
      }
    }
    while pi < |pattern| && pattern[pi] == '*'
      invariant 0 <= pi <= |pattern| && GreedyMatch(pattern, str) == OnlyStars(pattern, pi)
    {
      pi := pi + 1;
    }
    r := pi == |pattern|;
  }

  // ---- what the loop keeps, on strings without '*' ----

  /** The `n` pattern characters from `i` are star-free and match those of `s` from `j` one by one. */
  predicate Literal(p: string, i: nat, s: string, j: nat, n: nat)
    decreases n
  {
    n == 0 ||
    (i < |p| && j < |s| && p[i] != '*' && (p[i] == '?' || p[i] == s[j]) && Literal(p, i + 1, s, j + 1, n - 1))
  }

  lemma {:induction false} LiteralSnoc(p: string, i: nat, s: string, j: nat, n: nat)
    requires Literal(p, i, s, j, n) && i + n < |p| && j + n < |s|
    requires p[i + n] != '*' && (p[i + n] == '?' || p[i + n] == s[j + n])
    ensures Literal(p, i, s, j, n + 1)
    decreases n
  {
    if n > 0 {
      LiteralSnoc(p, i + 1, s, j + 1, n - 1);
    }
  }

  predicate StarFree(p: string, i: nat, n: nat)
    requires i + n <= |p|
  {
    '*' !in p[i..i + n]
  }

  lemma {:induction false} LiteralStarFree(p: string, i: nat, s: string, j: nat, n: nat)
    requires Literal(p, i, s, j, n) && i + n <= |p|
    ensures StarFree(p, i, n)
    decreases n
  {
    if n > 0 {
      LiteralStarFree(p, i + 1, s, j + 1, n - 1);
      assert p[i..i + n] == [p[i]] + p[i + 1..i + 1 + (n - 1)];
    }
  }

  /** A star-free stretch can only match in place. */
  lemma {:induction false} LiteralForced(p: string, i: nat, s: string, j: nat, n: nat)
    requires i + n <= |p| && j <= |s| && StarFree(p, i, n)
    ensures MatchesAt(p, i, s, j) <==> Literal(p, i, s, j, n) && j + n <= |s| && MatchesAt(p, i + n, s, j + n)
    decreases n
  {
    if n > 0 {
      assert p[i] == p[i..i + n][0];
      if j < |s| && (p[i] == '?' || p[i] == s[j]) {
        assert p[i + 1..i + 1 + (n - 1)] == p[i..i + n][1..];
        LiteralForced(p, i + 1, s, j + 1, n - 1);
      }
    }
  }

  lemma SuffixStart(p: string, i: nat, s: string, j: nat) returns (k: nat)
    requires i <= |p| && j <= |s| && MatchesSuffix(p, i, s, j)
    ensures j <= k <= |s| && MatchesAt(p, i, s, k)
  {
    k :| j <= k <= |s| && MatchesAt(p, i, s, k);
  }

  /** A star can absorb more. */
  lemma StarAbsorbs(p: string, i: nat, s: string, j: nat, k: nat)
    requires i < |p| && p[i] == '*' && j <= k <= |s| && MatchesAt(p, i, s, k)
    ensures MatchesAt(p, i, s, j)
  {
    assert MatchesSuffix(p, i + 1, s, k);
  }

  /**
   * The state accounts for the whole match: without a star yet, the rest must match the rest;
   * after one, the star at its current start must match, and what follows it has matched in place so far.
   */
  ghost predicate Accounts(p: string, s: string, pi: nat, si: nat, starP: int, starS: nat)
    requires State(p, s, pi, si, starP, starS)
  {
    if starP < 0 then Matches(p, s) <==> MatchesAt(p, pi, s, si)
    else
      && p[starP] == '*'
      && (Matches(p, s) <==> MatchesAt(p, starP, s, starS))
      && si - starS == pi - starP - 1
      && Literal(p, starP + 1, s, starS, pi - starP - 1)
  }

  lemma AccountsAdvance(p: string, s: string, pi: nat, si: nat, starP: int, starS: nat)
    requires State(p, s, pi, si, starP, starS) && Accounts(p, s, pi, si, starP, starS)
    requires si < |s| && pi < |p| && p[pi] != '*' && (p[pi] == s[si] || p[pi] == '?')
    ensures Accounts(p, s, pi + 1, si + 1, starP, starS)
  {
    if starP >= 0 {
      LiteralSnoc(p, starP + 1, s, starS, pi - starP - 1);
    }
  }

  /** At the next star the earlier one's leftmost start is as good as any. */
  lemma AccountsStar(p: string, s: string, pi: nat, si: nat, starP: int, starS: nat)
    requires State(p, s, pi, si, starP, starS) && Accounts(p, s, pi, si, starP, starS)
    requires pi < |p| && p[pi] == '*'
    ensures Accounts(p, s, pi + 1, si, pi, si)
  {
    if starP >= 0 {
      var n := pi - starP - 1;
      LiteralStarFree(p, starP + 1, s, starS, n);
      LiteralForced(p, starP + 1, s, starS, n);
      if MatchesAt(p, starP, s, starS) {
        var k := SuffixStart(p, starP + 1, s, starS);
        LiteralForced(p, starP + 1, s, k, n);
        StarAbsorbs(p, pi, s, si, k + n);
      }
      if MatchesAt(p, pi, s, si) {
        assert MatchesSuffix(p, starP + 1, s, starS);
      }
    }
  }

  /** A mismatch rules out the star's current start. */
  lemma AccountsBack(p: string, s: string, pi: nat, si: nat, starP: int, starS: nat)
    requires State(p, s, pi, si, starP, starS) && Accounts(p, s, pi, si, starP, starS)
    requires starP >= 0 && si < |s| && !MatchesAt(p, pi, s, si)
    ensures Accounts(p, s, starP + 1, starS + 1, starP, starS + 1)
  {
    LiteralStarFree(p, starP + 1, s, starS, pi - starP - 1);
    LiteralForced(p, starP + 1, s, starS, pi - starP - 1);
    if MatchesAt(p, starP, s, starS) {
      var k := SuffixStart(p, starP + 1, s, starS);
      assert MatchesSuffix(p, starP + 1, s, starS + 1);
    }
    if MatchesAt(p, starP, s, starS + 1) {
      StarAbsorbs(p, starP, s, starS, starS + 1);
    }
  }

  lemma {:induction false} StarsMatchNothing(p: string, pi: nat, s: string)
    requires pi <= |p|
    ensures MatchesAt(p, pi, s, |s|) <==> OnlyStars(p, pi)
    decreases |p| - pi
  {
    if pi < |p| && p[pi] == '*' {
      StarsMatchNothing(p, pi + 1, s);
      if MatchesAt(p, pi, s, |s|) {
        var k := SuffixStart(p, pi + 1, s, |s|);
      }
    }
  }

  /** When the string is used up, only stars may be left. */
  lemma AccountsEnd(p: string, s: string, pi: nat, starP: int, starS: nat)
    requires State(p, s, pi, |s|, starP, starS) && Accounts(p, s, pi, |s|, starP, starS)
    ensures Matches(p, s) <==> OnlyStars(p, pi)
  {
    StarsMatchNothing(p, pi, s);
    if starP >= 0 {
      var n := pi - starP - 1;
      LiteralStarFree(p, starP + 1, s, starS, n);
      LiteralForced(p, starP + 1, s, starS, n);
      if MatchesAt(p, starP, s, starS) {
        var k := SuffixStart(p, starP + 1, s, starS);
        LiteralForced(p, starP + 1, s, k, n);
      }
      if MatchesAt(p, starP + 1, s, starS) {
        assert MatchesSuffix(p, starP + 1, s, starS);
      }
    }
  }

  /** From every accounted state the loop returns what matching means. */
  lemma {:induction false} GreedyFrom(p: string, s: string, pi: nat, si: nat, starP: int, starS: nat)
    requires '*' !in s
    requires State(p, s, pi, si, starP, starS) && Accounts(p, s, pi, si, starP, starS)
    ensures Greedy(p, s, pi, si, starP, starS) <==> Matches(p, s)
    decreases |p| - starP, |s| - starS, |s| - si
  {
    if si == |s| {
      AccountsEnd(p, s, pi, starP, starS);
    } else if pi < |p| && (p[pi] == s[si] || p[pi] == '?') {
      assert s[si] in s;
      AccountsAdvance(p, s, pi, si, starP, starS);
      GreedyFrom(p, s, pi + 1, si + 1, starP, starS);
    } else if pi < |p| && p[pi] == '*' {
      AccountsStar(p, s, pi, si, starP, starS);
      GreedyFrom(p, s, pi + 1, si, pi, si);
    } else if starP >= 0 {
      AccountsBack(p, s, pi, si, starP, starS);
      GreedyFrom(p, s, starP + 1, starS + 1, starP, starS + 1);
    }
  }

  lemma GreedyExact(p: string, s: string)
    requires '*' !in s
    ensures GreedyMatch(p, s) <==> Matches(p, s)
  {
    GreedyFrom(p, s, 0, 0, -1, 0);
  }

  // ---- where the loop departs from the meaning ----

  function Questions(n: nat): (r: string)
    ensures |r| == n && forall i :: 0 <= i < n ==> r[i] == '?'
  {
    seq(n, _ => '?')
  }

  /**
   * A pattern the loop gets wrong on a string whose character at `n` is '*': a star that has to match nothing there.
   */
  function WrongPattern(s: string, n: nat): string
    requires n < |s|
  {
    Questions(n) + "*" + Questions(|s| - n)
  }

  lemma {:induction false} QuestionsMatch(p: string, i: nat, s: string, j: nat, k: nat)
    requires i <= k <= |p| && j + (k - i) <= |s| && forall x :: i <= x < k ==> p[x] == '?'
    requires MatchesAt(p, k, s, j + (k - i))
    ensures MatchesAt(p, i, s, j)
    decreases k - i
  {
    if i < k {
      QuestionsMatch(p, i + 1, s, j + 1, k);
    }
  }

  lemma {:induction false} QuestionsConsume(p: string, s: string, i: nat, j: nat, k: nat)
    requires i <= k <= |p| && j + (k - i) <= |s| && forall x :: i <= x < k ==> p[x] == '?'
    ensures Greedy(p, s, i, j, -1, 0) == Greedy(p, s, k, j + (k - i), -1, 0)
    decreases k - i
  {
    if i < k {
      QuestionsConsume(p, s, i + 1, j + 1, k);
    }
  }

  lemma WrongPatternIsWrong(s: string, n: nat)
    requires n < |s| && s[n] == '*'
    ensures Matches(WrongPattern(s, n), s) && !GreedyMatch(WrongPattern(s, n), s)
  {
    var p := WrongPattern(s, n);
    assert p[n] == '*' && |p| == |s| + 1;
    QuestionsMatch(p, n + 1, s, n, |p|);
    assert MatchesAt(p, n, s, n);
    QuestionsMatch(p, 0, s, 0, n);
    QuestionsConsume(p, s, 0, 0, n);
    QuestionsConsume(p, s, n + 1, n + 1, |p| - 1);
  }

  /** The string-side law: the loop is right on `s` for every pattern if and only if `s` has no '*'. */
  lemma RightOnString(s: string)
    ensures (forall p :: GreedyMatch(p, s) == Matches(p, s)) <==> '*' !in s
  {
    if '*' in s {
      var n :| 0 <= n < |s| && s[n] == '*';
      WrongPatternIsWrong(s, n);
    } else {
      forall p ensures GreedyMatch(p, s) == Matches(p, s) {
        GreedyExact(p, s);
      }
    }
  }

  /** A string the loop gets wrong for a pattern with a star at `n`: the pattern itself, then more. */
  function WrongString(p: string, n: nat): string
    requires n < |p|
  {
    p + "z" + p[n + 1..]
  }

  /** A pattern matches itself, character by character. */
  lemma {:induction false} MatchesItself(p: string, i: nat, s: string, j: nat, k: nat)
    requires i <= k <= |p| && j + (k - i) <= |s| && s[j..j + (k - i)] == p[i..k]
    requires MatchesAt(p, k, s, j + (k - i))
    ensures MatchesAt(p, i, s, j)
    decreases k - i
  {
    if i < k {
      assert s[j] == s[j..j + (k - i)][0] == p[i..k][0] == p[i];
      assert s[j + 1..j + 1 + (k - (i + 1))] == s[j..j + (k - i)][1..] == p[i..k][1..] == p[i + 1..k];
      MatchesItself(p, i + 1, s, j + 1, k);
    }
  }

  lemma {:induction false} ConsumesItself(p: string, s: string, i: nat)
    requires i <= |p| <= |s| && s[..|p|] == p
    ensures Greedy(p, s, i, i, -1, 0) == Greedy(p, s, |p|, |p|, -1, 0)
    decreases |p| - i
  {
    if i < |p| {
      assert s[i] == s[..|p|][i];
      ConsumesItself(p, s, i + 1);
    }
  }

  lemma WrongStringIsWrong(p: string, n: nat)
    requires n < |p| && p[n] == '*'
    ensures Matches(p, WrongString(p, n)) && !GreedyMatch(p, WrongString(p, n))
  {
    var s := WrongString(p, n);
    var k := |p| + 1;
    assert s[k..] == p[n + 1..] && s[k..k + (|p| - (n + 1))] == s[k..];
    MatchesItself(p, n + 1, s, k, |p|);
    assert MatchesAt(p, n, s, n);
    assert s[0..n] == p[0..n];
    MatchesItself(p, 0, s, 0, n);
    assert s[..|p|] == p;
    ConsumesItself(p, s, 0);
  }

  /** The pattern-side law: the loop is right for `p` on every string if and only if `p` has no '*'. */
  lemma RightForPattern(p: string)
    ensures (forall s :: GreedyMatch(p, s) == Matches(p, s)) <==> '*' !in p
  {
    if '*' in p {
      var n :| 0 <= n < |p| && p[n] == '*';
      WrongStringIsWrong(p, n);
    } else {
      forall s ensures GreedyMatch(p, s) == Matches(p, s) {
        NoStar(p, s, 0);
      }
    }
  }

  /** Without stars the loop compares position by position. */
  lemma {:induction false} NoStar(p: string, s: string, i: nat)
    requires '*' !in p && i <= |p| && i <= |s|
    ensures Greedy(p, s, i, i, -1, 0) <==> MatchesAt(p, i, s, i)
    decreases |p| - i
  {
    if i < |p| {
      assert p[i] in p;
      if i < |s| && (p[i] == '?' || p[i] == s[i]) {
        NoStar(p, s, i + 1);
      }
    }
  }
}
