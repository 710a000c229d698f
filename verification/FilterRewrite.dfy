/** FUNC(arg) FILTER (WHERE c) as FUNC(CASE WHEN c THEN arg END). */
module FilterRewrite {
  import opened GroupingCheck
  import opened Seqs

  datatype Value = Null | Bool(b: bool) | Int(n: int) | Text(s: string)

  type Row = nat -> Value

  // ---- the binder's rewrite ----

  datatype Bound = Args(args: seq<Expr>) | NotAnAggregate | MultiArgument

  /** The arguments after the filter has been moved into them. */
  function RewriteFilter(isAggregate: bool, args: seq<Expr>, filter: Expr): Bound {
    if !isAggregate then NotAnAggregate
    else if |args| == 0 then Args([Case(filter, Constant(Comparable(1)))])
    else if |args| == 1 then Args([Case(filter, args[0])])
    else MultiArgument
  }

  function Case(cond: Expr, arg: Expr): Expr {
    Function("CASE", [cond, arg], false, false, None)
  }

  // ---- aggregates over values ----

  datatype Kind = SUM | COUNT | AVG | MIN | MAX

  datatype Result = NoValue | Number(n: int) | Ratio(sum: int, count: nat) | Extremum(v: Value)

  /** The ints of a list of values: what SUM and AVG look at. */
  function Ints(vals: seq<Value>): seq<int> {
    if vals == [] then []
    else if Last(vals).Int? then Ints(Init(vals)) + [Last(vals).n] else Ints(Init(vals))
  }

  function NonNull(vals: seq<Value>): seq<Value> {
    if vals == [] then []
    else if Last(vals).Null? then NonNull(Init(vals)) else NonNull(Init(vals)) + [Last(vals)]
  }

  function Sum(s: seq<int>): int {
    if s == [] then 0 else Sum(Init(s)) + Last(s)
  }

  /** The running extreme: a value replaces the current one if it is less, or if the current one is less than it. */
  function Extreme(s: seq<Value>, least: bool, less: (Value, Value) -> bool): Value
    requires s != []
  {
    if |s| == 1 then s[0]
    else
      var m := Extreme(Init(s), least, less);
      if (least && less(Last(s), m)) || (!least && less(m, Last(s))) then Last(s) else m
  }

  /**
   * COUNT, MIN and MAX take what is not null, MIN and MAX by whatever order the values have; SUM and AVG take the
   * ints.
   */
  function Aggregate(kind: Kind, vals: seq<Value>, less: (Value, Value) -> bool): Result {
    var ints, present := Ints(vals), NonNull(vals);
    match kind
    case COUNT => Number(|present|)
    case SUM => if ints == [] then NoValue else Number(Sum(ints))
    case AVG => if ints == [] then NoValue else Ratio(Sum(ints), |ints|)
    case MIN => if present == [] then NoValue else Extremum(Extreme(present, true, less))
    case MAX => if present == [] then NoValue else Extremum(Extreme(present, false, less))
  }

  lemma {:induction false} NonNullInts(vals: seq<Value>)
    ensures Ints(NonNull(vals)) == Ints(vals) && NonNull(NonNull(vals)) == NonNull(vals)
  {
    if vals != [] {
      NonNullInts(Init(vals));
      if !Last(vals).Null? {
        var s := NonNull(vals);
        assert Init(s) == NonNull(Init(vals)) && Last(s) == Last(vals);
      }
    }
  }

  /** Nulls never count. */
  lemma IgnoresNulls(kind: Kind, a: seq<Value>, b: seq<Value>, less: (Value, Value) -> bool)
    requires NonNull(a) == NonNull(b)
    ensures Aggregate(kind, a, less) == Aggregate(kind, b, less)
  {
    NonNullInts(a);
    NonNullInts(b);
  }

  // ---- the meaning of both forms ----

  /** CASE WHEN gives its value where the condition is true, and null where it is false or null. */
  ghost predicate CaseSem(sem: Sem<Value>) {
    && sem.lit(Comparable(1)) == Int(1)
    && forall c, v :: sem.call("CASE", false, [c, v]) == if c == Bool(true) then v else Null
  }

  ghost function Values(e: Expr, rows: seq<Row>, aggs: Expr -> Value, sem: Sem<Value>): (r: seq<Value>)
    requires Deterministic(e)
    ensures |r| == |rows|
  {
    if rows == [] then [] else Values(e, Init(rows), aggs, sem) + [Eval(e, Last(rows), aggs, sem)]
  }

  /** The rows for which the condition is true. */
  ghost function Passing(cond: Expr, rows: seq<Row>, aggs: Expr -> Value, sem: Sem<Value>): seq<Row>
    requires Deterministic(cond)
  {
    if rows == [] then []
    else
      var rest := Passing(cond, Init(rows), aggs, sem);
      if Eval(cond, Last(rows), aggs, sem) == Bool(true) then rest + [Last(rows)] else rest
  }

  lemma CaseValue(cond: Expr, arg: Expr, row: Row, aggs: Expr -> Value, sem: Sem<Value>)
    requires Deterministic(cond) && Deterministic(arg) && CaseSem(sem)
    ensures Deterministic(Case(cond, arg))
    ensures Eval(Case(cond, arg), row, aggs, sem)
         == if Eval(cond, row, aggs, sem) == Bool(true) then Eval(arg, row, aggs, sem) else Null
  {
    var e := Case(cond, arg);
    assert EvalAll(e.args, row, aggs, sem) == [Eval(cond, row, aggs, sem), Eval(arg, row, aggs, sem)];
  }

  /** The CASE over all rows and the argument over the passing rows differ in nulls only. */
  lemma {:induction false} CaseFilters(cond: Expr, arg: Expr, rows: seq<Row>, aggs: Expr -> Value, sem: Sem<Value>)
    requires Deterministic(cond) && Deterministic(arg) && CaseSem(sem)
    ensures Deterministic(Case(cond, arg))
    ensures NonNull(Values(Case(cond, arg), rows, aggs, sem))
      == NonNull(Values(arg, Passing(cond, rows, aggs, sem), aggs, sem))
  {
    if rows == [] {
      CaseValue(cond, arg, i => Null, aggs, sem);
    } else {
      CaseFilters(cond, arg, Init(rows), aggs, sem);
      CaseValue(cond, arg, Last(rows), aggs, sem);
      var passing := Passing(cond, Init(rows), aggs, sem);
      assert Init(passing + [Last(rows)]) == passing;
      var before := Values(Case(cond, arg), Init(rows), aggs, sem);
      NonNullSnoc(before, Eval(Case(cond, arg), Last(rows), aggs, sem));
      NonNullSnoc(Values(arg, passing, aggs, sem), Eval(arg, Last(rows), aggs, sem));
    }
  }

  lemma NonNullSnoc(vals: seq<Value>, v: Value)
    ensures NonNull(vals + [v]) == if v.Null? then NonNull(vals) else NonNull(vals) + [v]
  {
    assert Init(vals + [v]) == vals;
  }

  /** The rewritten aggregate over all rows is the filtered aggregate, for every condition and argument. */
  lemma FilterPreserved(kind: Kind, args: seq<Expr>, filter: Expr, rows: seq<Row>, aggs: Expr -> Value, sem: Sem<Value>,
                        less: (Value, Value) -> bool)
    requires |args| == 1 && Deterministic(args[0]) && Deterministic(filter) && CaseSem(sem)
    ensures var b := RewriteFilter(true, args, filter);
      && b.Args? && |b.args| == 1 && Deterministic(b.args[0])
      && Aggregate(kind, Values(b.args[0], rows, aggs, sem), less)
      == Aggregate(kind, Values(args[0], Passing(filter, rows, aggs, sem), aggs, sem), less)
  {
    CaseFilters(filter, args[0], rows, aggs, sem);
    IgnoresNulls(kind, Values(Case(filter, args[0]), rows, aggs, sem),
                 Values(args[0], Passing(filter, rows, aggs, sem), aggs, sem), less);
  }

  /** COUNT(*) FILTER counts the passing rows. */
  lemma CountStarPreserved(filter: Expr, rows: seq<Row>, aggs: Expr -> Value, sem: Sem<Value>,
                           less: (Value, Value) -> bool)
    requires Deterministic(filter) && CaseSem(sem)
    ensures var b := RewriteFilter(true, [], filter);
      && b.Args? && |b.args| == 1 && Deterministic(b.args[0])
      && Aggregate(COUNT, Values(b.args[0], rows, aggs, sem), less) == Number(|Passing(filter, rows, aggs, sem)|)
  {
    var one := Constant(Comparable(1));
    CaseFilters(filter, one, rows, aggs, sem);
    AllOnes(Passing(filter, rows, aggs, sem), aggs, sem);
  }

  lemma {:induction false} AllOnes(rows: seq<Row>, aggs: Expr -> Value, sem: Sem<Value>)
    requires CaseSem(sem)
    ensures |NonNull(Values(Constant(Comparable(1)), rows, aggs, sem))| == |rows|
  {
    if rows != [] {
      AllOnes(Init(rows), aggs, sem);
      NonNullSnoc(Values(Constant(Comparable(1)), Init(rows), aggs, sem), Int(1));
    }
  }
}
