/** Where the binder's comparison of expressions and SQL's meaning part. */
module GroupingGaps {
  import opened FilterRewrite
  import opened GroupingCheck

  // ---- the polarity of IS NULL ----

  /** CASE and IS [NOT] NULL as SQL defines them. */
  ghost predicate NullSem(sem: Sem<Value>) {
    && CaseSem(sem)
    && forall v :: sem.isNull(false, v) == Bool(v == Null) && sem.isNull(true, v) == Bool(v != Null)
  }

  /** CASE WHEN x IS [NOT] NULL THEN y END. */
  function CaseNull(isNot: bool): Expr {
    Case(IsNull(Column(0), isNot), Column(1))
  }

  lemma CaseNullValue(isNot: bool, row: Row, aggs: Expr -> Value, sem: Sem<Value>)
    requires NullSem(sem)
    ensures Deterministic(CaseNull(isNot))
    ensures Eval(CaseNull(isNot), row, aggs, sem) == if (row(0) == Null) != isNot then row(1) else Null
  {
    CaseValue(IsNull(Column(0), isNot), Column(1), row, aggs, sem);
  }

  lemma CasesMatch(e: Expr, g: Expr)
    requires e == CaseNull(true) && g == CaseNull(false)
    ensures BoundExprEqual(e, g) && !ContainsAggregate(g)
  {
    TestsMatch(e.args[0], g.args[0]);
    assert BoundExprEqual(e.args[1], g.args[1]) && !ContainsAggregate(g.args[1]);
  }

  lemma TestsMatch(e: Expr, g: Expr)
    requires e == IsNull(Column(0), true) && g == IsNull(Column(0), false)
    ensures BoundExprEqual(e, g) && !ContainsAggregate(g)
  {
  }

  /**
   * Grouped by CASE WHEN x IS NULL THEN y END, the same CASE over x IS NOT NULL is accepted.
   * On the rows x = 1, y = 1 and x = 1, y = 2 the key is null twice, and the selected expression is 1 and 2.
   */
  lemma PolarityIsMissed(sem: Sem<Value>)
    requires NullSem(sem)
    ensures KeysOk([CaseNull(false)]) && Deterministic(CaseNull(true))
    ensures !HasUngroupedColumn(CaseNull(true), [CaseNull(false)])
    ensures !OnePerGroup(CaseNull(true), [CaseNull(false)], sem)
  {
    var e, keys := CaseNull(true), [CaseNull(false)];
    CasesMatch(e, keys[0]);
    var r1: Row, r2: Row, aggs: Expr -> Value := i => Int(1), i => Int(if i == 0 then 1 else 2), e => Null;
    CaseNullValue(false, r1, aggs, sem);
    CaseNullValue(false, r2, aggs, sem);
    CaseNullValue(true, r1, aggs, sem);
    CaseNullValue(true, r2, aggs, sem);
    assert SameKeys(keys, r1, r2, aggs, sem);
  }

  // ---- the TRY of a cast ----

  /** What evaluating an expression gives: a value, or a conversion error. */
  datatype Outcome = Is(v: Value) | Raises

  /** Casting null gives null; TRY_CAST gives what CAST gives, and null where CAST raises. */
  ghost predicate CastSem(sem: Sem<Outcome>, target: nat) {
    && sem.cast(target, false, Is(Null)) == Is(Null)
    && forall x :: sem.cast(target, true, x) ==
                   if sem.cast(target, false, x).Raises? then Is(Null) else sem.cast(target, false, x)
  }

  /**
   * Grouped by TRY_CAST(x AS t), CAST(x AS t) is accepted.
   * A null and a value that does not convert have the same key; the cast is null for one and raises for the other.
   */
  lemma TryIsMissed(target: nat, bad: Value, sem: Sem<Outcome>)
    requires CastSem(sem, target) && sem.cast(target, false, Is(bad)).Raises?
    ensures KeysOk([Cast(Column(0), target, true)]) && Deterministic(Cast(Column(0), target, false))
    ensures !HasUngroupedColumn(Cast(Column(0), target, false), [Cast(Column(0), target, true)])
    ensures !OnePerGroup(Cast(Column(0), target, false), [Cast(Column(0), target, true)], sem)
  {
    var e, keys := Cast(Column(0), target, false), [Cast(Column(0), target, true)];
    assert BoundExprEqual(e, keys[0]);
    var r1: nat -> Outcome, r2: nat -> Outcome, aggs: Expr -> Outcome := i => Is(Null), i => Is(bad), e => Is(Null);
    assert Eval(keys[0], r1, aggs, sem) == Eval(keys[0], r2, aggs, sem) == Is(Null);
    assert SameKeys(keys, r1, r2, aggs, sem);
    assert Eval(e, r1, aggs, sem) != Eval(e, r2, aggs, sem);
  }
}
