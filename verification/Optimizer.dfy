/** The plan rewrites: constant folding and filter pushdown. */
module Optimizer {
  import opened GroupingCheck
  import opened Seqs

  datatype Plan =
    | Scan(table: nat)
    | Filter(condition: Option<Expr>, child: Plan)
    | Projection(exprs: seq<Expr>, input: Option<Plan>)
    | Other(op: nat, children: seq<Plan>)

  type Row<V> = seq<V>

  /** What the tables hold, what the other operators do, and how values are written as constants. */
  datatype World<!V> = World(
    sem: Sem<V>,
    aggs: Expr -> V,
    truth: V -> bool,
    constant: V -> Literal,
    table: nat -> seq<Row<V>>,
    run: (nat, seq<seq<Row<V>>>) -> seq<Row<V>>)

  /** A value written as a constant evaluates to itself. */
  ghost predicate Faithful<V(!new)>(w: World<V>) {
    forall v :: w.sem.lit(w.constant(v)) == v
  }

  // ---- the code ----

  predicate IsConstantExpression(e: Expr): (constant: bool)
    ensures constant ==> Deterministic(e)
  {
    match e
    case Constant(_) => true
    case Arithmetic(_, l, r) => IsConstantExpression(l) && IsConstantExpression(r)
    case Comparison(_, l, r) => IsConstantExpression(l) && IsConstantExpression(r)
    case UnaryMinus(c) => IsConstantExpression(c)
    case Negation(c) => IsConstantExpression(c)
    case _ => false
  }

  /** Evaluates over one dummy row without columns. */
  ghost function EvaluateConstant<V>(e: Expr, w: World<V>): V
    requires IsConstantExpression(e)
  {
    Eval(e, i => w.sem.lit(NullLiteral(0)), w.aggs, w.sem)
  }

  ghost function FoldExpr<V>(e: Expr, w: World<V>): Expr {
    if IsConstantExpression(e) && !e.Constant? then Constant(w.constant(EvaluateConstant(e, w))) else e
  }

  ghost function FoldAll<V>(exprs: seq<Expr>, w: World<V>): seq<Expr> {
    seq(|exprs|, i requires 0 <= i < |exprs| => FoldExpr(exprs[i], w))
  }

  /** Children first; then an always-true filter goes, and constant projections become constants. */
  ghost function ConstantFolding<V>(p: Plan, w: World<V>): Plan {
    match p
    case Scan(_) => p
    case Filter(cond, child) =>
      var c := ConstantFolding(child, w);
      if cond.Some? && IsConstantExpression(cond.value) && w.truth(EvaluateConstant(cond.value, w)) then c
      else Filter(cond, c)
    case Projection(exprs, child) =>
      Projection(FoldAll(exprs, w), if child.None? then None else Some(ConstantFolding(child.value, w)))
    case Other(op, children) =>
      Other(op, seq(|children|, i requires 0 <= i < |children| => ConstantFolding(children[i], w)))
  }

  /** What the pushdown accepts as a condition; the value of such an expression is a function of the row. */
  predicate CheckFilterRefs(e: Expr): (ok: bool)
    ensures ok ==> Deterministic(e)
  {
    match e
    case Column(_) => true
    case Constant(_) => true
    case Comparison(_, l, r) => CheckFilterRefs(l) && CheckFilterRefs(r)
    case Conjunction(_, l, r) => CheckFilterRefs(l) && CheckFilterRefs(r)
    case IsNull(c, _) => CheckFilterRefs(c)
    case Negation(c) => CheckFilterRefs(c)
    case _ => false
  }

  /** The pattern the pushdown swaps: a filter over a projection over something. */
  predicate Swaps(cond: Option<Expr>, child: Plan) {
    child.Projection? && child.input.Some? && (cond.Some? ==> CheckFilterRefs(cond.value))
  }

  function FilterPushdown(p: Plan): Plan {
    match p
    case Scan(_) => p
    case Filter(cond, child) =>
      var c := FilterPushdown(child);
      if Swaps(cond, c) then Projection(c.exprs, Some(Filter(cond, c.input.value))) else Filter(cond, c)
    case Projection(exprs, child) => Projection(exprs, if child.None? then None else Some(FilterPushdown(child.value)))
    case Other(op, children) =>
      Other(op, seq(|children|, i requires 0 <= i < |children| => FilterPushdown(children[i])))
  }

  // ---- meaning ----

  predicate PlanOk(p: Plan) {
    match p
    case Scan(_) => true
    case Filter(cond, child) => (cond.Some? ==> Deterministic(cond.value)) && PlanOk(child)
    case Projection(exprs, child) =>
      (forall i :: 0 <= i < |exprs| ==> Deterministic(exprs[i])) && (child.Some? ==> PlanOk(child.value))
    case Other(_, children) => forall i :: 0 <= i < |children| ==> PlanOk(children[i])
  }

  /** A row as the evaluator reads it. */
  ghost function Cells<V>(row: Row<V>, w: World<V>): nat -> V {
    (i: nat) => if i < |row| then row[i] else w.sem.lit(NullLiteral(0))
  }

  ghost function ProjectRow<V>(exprs: seq<Expr>, row: Row<V>, w: World<V>): Row<V>
    requires forall i :: 0 <= i < |exprs| ==> Deterministic(exprs[i])
  {
    EvalAll(exprs, Cells(row, w), w.aggs, w.sem)
  }

  ghost function ProjectRows<V>(exprs: seq<Expr>, rows: seq<Row<V>>, w: World<V>): seq<Row<V>>
    requires forall i :: 0 <= i < |exprs| ==> Deterministic(exprs[i])
  {
    if rows == [] then [] else ProjectRows(exprs, Init(rows), w) + [ProjectRow(exprs, Last(rows), w)]
  }

  /** The row passes: no condition, or a condition that is true. */
  ghost predicate Passes<V>(cond: Option<Expr>, row: Row<V>, w: World<V>)
    requires cond.Some? ==> Deterministic(cond.value)
  {
    cond.Some? ==> w.truth(Eval(cond.value, Cells(row, w), w.aggs, w.sem))
  }

  ghost function FilterRows<V>(cond: Option<Expr>, rows: seq<Row<V>>, w: World<V>): seq<Row<V>>
    requires cond.Some? ==> Deterministic(cond.value)
  {
    if rows == [] then []
    else
      var rest := FilterRows(cond, Init(rows), w);
      if Passes(cond, Last(rows), w) then rest + [Last(rows)] else rest
  }

  /** The rows a plan produces, in order. */
  ghost function Rows<V>(p: Plan, w: World<V>): seq<Row<V>>
    requires PlanOk(p)
  {
    match p
    case Scan(t) => w.table(t)
    case Filter(cond, child) => FilterRows(cond, Rows(child, w), w)
    case Projection(exprs, child) =>
      if child.None? then [ProjectRow(exprs, [], w)] else ProjectRows(exprs, Rows(child.value, w), w)
    case Other(op, children) =>
      w.run(op, seq(|children|, i requires 0 <= i < |children| => Rows(children[i], w)))
  }

  // ---- constant folding ----

  /** A constant expression has the same value for every row. */
  lemma {:induction false} ConstantValue<V>(e: Expr, r1: nat -> V, r2: nat -> V, w: World<V>)
    requires IsConstantExpression(e)
    ensures Eval(e, r1, w.aggs, w.sem) == Eval(e, r2, w.aggs, w.sem)
  {
    match e
    case Arithmetic(_, l, r) => ConstantValue(l, r1, r2, w); ConstantValue(r, r1, r2, w);
    case Comparison(_, l, r) => ConstantValue(l, r1, r2, w); ConstantValue(r, r1, r2, w);
    case UnaryMinus(c) => ConstantValue(c, r1, r2, w);
    case Negation(c) => ConstantValue(c, r1, r2, w);
    case _ =>
  }

  lemma FoldedValue<V(!new)>(e: Expr, row: nat -> V, w: World<V>)
    requires Deterministic(e) && Faithful(w)
    ensures Deterministic(FoldExpr(e, w)) && Eval(FoldExpr(e, w), row, w.aggs, w.sem) == Eval(e, row, w.aggs, w.sem)
  {
    if IsConstantExpression(e) {
      ConstantValue(e, row, i => w.sem.lit(NullLiteral(0)), w);
    }
  }

  lemma FoldedRow<V(!new)>(exprs: seq<Expr>, row: Row<V>, w: World<V>)
    requires (forall i :: 0 <= i < |exprs| ==> Deterministic(exprs[i])) && Faithful(w)
    ensures forall i :: 0 <= i < |exprs| ==> Deterministic(FoldAll(exprs, w)[i])
    ensures ProjectRow(FoldAll(exprs, w), row, w) == ProjectRow(exprs, row, w)
  {
    forall i | 0 <= i < |exprs|
      ensures Deterministic(FoldAll(exprs, w)[i])
      ensures Eval(FoldAll(exprs, w)[i], Cells(row, w), w.aggs, w.sem) == Eval(exprs[i], Cells(row, w), w.aggs, w.sem)
    {
      FoldedValue(exprs[i], Cells(row, w), w);
    }
  }

  lemma {:induction false} FoldedRows<V(!new)>(exprs: seq<Expr>, rows: seq<Row<V>>, w: World<V>)
    requires (forall i :: 0 <= i < |exprs| ==> Deterministic(exprs[i])) && Faithful(w)
    ensures forall i :: 0 <= i < |exprs| ==> Deterministic(FoldAll(exprs, w)[i])
    ensures ProjectRows(FoldAll(exprs, w), rows, w) == ProjectRows(exprs, rows, w)
  {
    FoldedRow(exprs, [], w);
    if rows != [] {
      FoldedRows(exprs, Init(rows), w);
      FoldedRow(exprs, Last(rows), w);
    }
  }

  lemma {:induction false} AlwaysTrue<V>(cond: Expr, rows: seq<Row<V>>, w: World<V>)
    requires IsConstantExpression(cond) && w.truth(EvaluateConstant(cond, w))
    ensures FilterRows(Some(cond), rows, w) == rows
  {
    if rows != [] {
      AlwaysTrue(cond, Init(rows), w);
      ConstantValue(cond, Cells(Last(rows), w), i => w.sem.lit(NullLiteral(0)), w);
      assert rows == Init(rows) + [Last(rows)];
    }
  }

  /** Constant folding changes no row of any plan, on any tables. */
  lemma {:induction false} FoldingPreservesRows<V(!new)>(p: Plan, w: World<V>)
    requires PlanOk(p) && Faithful(w)
    ensures PlanOk(ConstantFolding(p, w)) && Rows(ConstantFolding(p, w), w) == Rows(p, w)
  {
    match p
    case Scan(_) =>
    case Filter(cond, child) =>
      FoldingPreservesRows(child, w);
      if cond.Some? && IsConstantExpression(cond.value) && w.truth(EvaluateConstant(cond.value, w)) {
        AlwaysTrue(cond.value, Rows(child, w), w);
      }
    case Projection(exprs, child) =>
      FoldedRow(exprs, [], w);
      if child.Some? {
        FoldingPreservesRows(child.value, w);
        FoldedRows(exprs, Rows(child.value, w), w);
      }
    case Other(op, children) =>
      var folded := ConstantFolding(p, w).children;
      forall i | 0 <= i < |children| ensures PlanOk(folded[i]) && Rows(folded[i], w) == Rows(children[i], w) {
        FoldingPreservesRows(children[i], w);
      }
      SameChildren(folded, children, w);
  }

  ghost function ChildRows<V>(children: seq<Plan>, w: World<V>): seq<seq<Row<V>>>
    requires forall i :: 0 <= i < |children| ==> PlanOk(children[i])
  {
    seq(|children|, i requires 0 <= i < |children| => Rows(children[i], w))
  }

  lemma SameChildren<V>(a: seq<Plan>, b: seq<Plan>, w: World<V>)
    requires |a| == |b|
    requires forall i :: 0 <= i < |a| ==> PlanOk(a[i]) && PlanOk(b[i]) && Rows(a[i], w) == Rows(b[i], w)
    ensures ChildRows(a, w) == ChildRows(b, w)
  {
  }

  // ---- filter pushdown ----

  /** The columns a pushable condition reads. */
  function Columns(e: Expr): set<nat>
    requires CheckFilterRefs(e)
  {
    match e
    case Column(i) => {i}
    case Constant(_) => {}
    case Comparison(_, l, r) => Columns(l) + Columns(r)
    case Conjunction(_, l, r) => Columns(l) + Columns(r)
    case IsNull(c, _) => Columns(c)
    case Negation(c) => Columns(c)
  }

  /** The guard the code lacks: the projection passes each column the condition reads through at the same index. */
  predicate PassesThrough(exprs: seq<Expr>, cond: Option<Expr>)
    requires cond.Some? ==> CheckFilterRefs(cond.value)
  {
    cond.Some? ==> forall i :: i in Columns(cond.value) ==> i < |exprs| && exprs[i] == Column(i)
  }

  /** A condition depends only on the columns it reads. */
  lemma {:induction false} DependsOnColumns<V>(e: Expr, r1: nat -> V, r2: nat -> V, w: World<V>)
    requires CheckFilterRefs(e) && forall i :: i in Columns(e) ==> r1(i) == r2(i)
    ensures Eval(e, r1, w.aggs, w.sem) == Eval(e, r2, w.aggs, w.sem)
  {
    match e
    case Comparison(_, l, r) => DependsOnColumns(l, r1, r2, w); DependsOnColumns(r, r1, r2, w);
    case Conjunction(_, l, r) => DependsOnColumns(l, r1, r2, w); DependsOnColumns(r, r1, r2, w);
    case IsNull(c, _) => DependsOnColumns(c, r1, r2, w);
    case Negation(c) => DependsOnColumns(c, r1, r2, w);
    case _ =>
  }

  /** The condition tells the same of a row before and after the projection. */
  ghost predicate Commutes<V(!new)>(cond: Option<Expr>, exprs: seq<Expr>, w: World<V>)
    requires cond.Some? ==> Deterministic(cond.value)
    requires forall i :: 0 <= i < |exprs| ==> Deterministic(exprs[i])
  {
    forall row: Row<V> :: Passes(cond, ProjectRow(exprs, row, w), w) <==> Passes(cond, row, w)
  }

  lemma PassedThroughCommutes<V(!new)>(cond: Option<Expr>, exprs: seq<Expr>, w: World<V>)
    requires cond.Some? ==> CheckFilterRefs(cond.value)
    requires (forall i :: 0 <= i < |exprs| ==> Deterministic(exprs[i])) && PassesThrough(exprs, cond)
    ensures Commutes(cond, exprs, w)
  {
    if cond.Some? {
      forall row: Row<V> ensures Passes(cond, ProjectRow(exprs, row, w), w) <==> Passes(cond, row, w) {
        var after := Cells(ProjectRow(exprs, row, w), w);
        forall i | i in Columns(cond.value) ensures after(i) == Cells(row, w)(i) {
          assert Eval(exprs[i], Cells(row, w), w.aggs, w.sem) == Cells(row, w)(i);
        }
        DependsOnColumns(cond.value, after, Cells(row, w), w);
      }
    }
  }

  lemma {:induction false} SwapRows<V(!new)>(cond: Option<Expr>, exprs: seq<Expr>, rows: seq<Row<V>>, w: World<V>)
    requires cond.Some? ==> Deterministic(cond.value)
    requires (forall i :: 0 <= i < |exprs| ==> Deterministic(exprs[i])) && Commutes(cond, exprs, w)
    ensures FilterRows(cond, ProjectRows(exprs, rows, w), w) == ProjectRows(exprs, FilterRows(cond, rows, w), w)
  {
    if rows != [] {
      SwapRows(cond, exprs, Init(rows), w);
      var last := Last(rows);
      assert Init(ProjectRows(exprs, rows, w)) == ProjectRows(exprs, Init(rows), w);
      assert Passes(cond, ProjectRow(exprs, last, w), w) <==> Passes(cond, last, w);
      if Passes(cond, last, w) {
        assert Init(FilterRows(cond, Init(rows), w) + [last]) == FilterRows(cond, Init(rows), w);
      }
    }
  }

  /** Filtering before the projection gives the rows that filtering after it gives, whatever rows come in. */
  ghost predicate SwapPreserves<V(!new)>(cond: Option<Expr>, exprs: seq<Expr>, w: World<V>)
    requires cond.Some? ==> Deterministic(cond.value)
    requires forall i :: 0 <= i < |exprs| ==> Deterministic(exprs[i])
  {
    forall rows: seq<Row<V>> ::
      FilterRows(cond, ProjectRows(exprs, rows, w), w) == ProjectRows(exprs, FilterRows(cond, rows, w), w)
  }

  /** One swap is right for all rows if and only if it is right for each row by itself. */
  lemma SwapIsExact<V(!new)>(cond: Option<Expr>, exprs: seq<Expr>, w: World<V>)
    requires cond.Some? ==> Deterministic(cond.value)
    requires forall i :: 0 <= i < |exprs| ==> Deterministic(exprs[i])
    ensures Commutes(cond, exprs, w) <==> SwapPreserves(cond, exprs, w)
  {
    if Commutes(cond, exprs, w) {
      forall rows: seq<Row<V>>
        ensures FilterRows(cond, ProjectRows(exprs, rows, w), w) == ProjectRows(exprs, FilterRows(cond, rows, w), w)
      {
        SwapRows(cond, exprs, rows, w);
      }
    } else {
      var row: Row<V> :| !(Passes(cond, ProjectRow(exprs, row, w), w) <==> Passes(cond, row, w));
      OneRow(cond, exprs, row, w);
    }
  }

  lemma OneRow<V(!new)>(cond: Option<Expr>, exprs: seq<Expr>, row: Row<V>, w: World<V>)
    requires cond.Some? ==> Deterministic(cond.value)
    requires forall i :: 0 <= i < |exprs| ==> Deterministic(exprs[i])
    requires !(Passes(cond, ProjectRow(exprs, row, w), w) <==> Passes(cond, row, w))
    ensures FilterRows(cond, ProjectRows(exprs, [row], w), w) != ProjectRows(exprs, FilterRows(cond, [row], w), w)
  {
    ProjectOne(exprs, row, w);
    FilterOne(cond, row, w);
    FilterOne(cond, ProjectRow(exprs, row, w), w);
    assert ProjectRows(exprs, [], w) == [];
  }

  lemma ProjectOne<V(!new)>(exprs: seq<Expr>, row: Row<V>, w: World<V>)
    requires forall i :: 0 <= i < |exprs| ==> Deterministic(exprs[i])
    ensures ProjectRows(exprs, [row], w) == [ProjectRow(exprs, row, w)]
  {
    assert Init([row]) == [] && Last([row]) == row;
  }

  lemma FilterOne<V(!new)>(cond: Option<Expr>, row: Row<V>, w: World<V>)
    requires cond.Some? ==> Deterministic(cond.value)
    ensures FilterRows(cond, [row], w) == if Passes(cond, row, w) then [row] else []
  {
    assert Init([row]) == [] && Last([row]) == row;
  }

  // ---- the guard is exact ----

  /** Values are expressions, every operator rebuilds its expression, and only `cond` itself is true. */
  function TermWorld(cond: Expr, rows: seq<Row<Expr>>): World<Expr> {
    World(
      Sem(
        l => Constant(l),
        (shape, op, a, b) => Build(shape, op, a, b),
        a => Negation(a), a => UnaryMinus(a), (isNot, a) => IsNull(a, isNot),
        (test, isNot, a) => IsBool(a, test, isNot), (target, isTry, a) => Cast(a, target, isTry),
        (name, isDistinct, args) => Function(name, args, false, isDistinct, None)),
      e => Function("", [], true, false, None),
      v => v == cond,
      v => NullLiteral(0),
      t => rows,
      (op, inputs) => [])
  }

  /** A condition evaluates to itself if and only if every column it reads does. */
  lemma {:induction false} Rebuilt(e: Expr, row: nat -> Expr, w: World<Expr>)
    requires CheckFilterRefs(e) && w.sem == TermWorld(e, []).sem
    ensures Eval(e, row, w.aggs, w.sem) == e <==> forall i :: i in Columns(e) ==> row(i) == Column(i)
  {
    match e
    case Column(_) =>
    case Constant(_) =>
    case Comparison(_, l, r) => Rebuilt(l, row, w); Rebuilt(r, row, w);
    case Conjunction(_, l, r) => Rebuilt(l, row, w); Rebuilt(r, row, w);
    case IsNull(c, _) => Rebuilt(c, row, w);
    case Negation(c) => Rebuilt(c, row, w);
  }

  /** The row whose cells are the columns themselves. */
  function ColumnRow(n: nat): Row<Expr> {
    seq(n, i requires 0 <= i < n => Column(i))
  }

  /** Only a bare column evaluates to a column there. */
  lemma OnlyColumns(e: Expr, i: nat, n: nat, w: World<Expr>, cond: Expr)
    requires Deterministic(e) && w == TermWorld(cond, [ColumnRow(n)])
    ensures Eval(e, Cells(ColumnRow(n), w), w.aggs, w.sem) == Column(i) ==> e == Column(i)
  {
  }

  lemma {:induction false} ColumnsBelow(e: Expr) returns (n: nat)
    requires CheckFilterRefs(e)
    ensures forall i :: i in Columns(e) ==> i < n
  {
    n := 0;
    match e
    case Column(i) => n := i + 1;
    case Constant(_) =>
    case Comparison(_, l, r) =>
      var a := ColumnsBelow(l);
      var b := ColumnsBelow(r);
      n := a + b;
    case Conjunction(_, l, r) =>
      var a := ColumnsBelow(l);
      var b := ColumnsBelow(r);
      n := a + b;
    case IsNull(c, _) => n := ColumnsBelow(c);
    case Negation(c) => n := ColumnsBelow(c);
  }

  /** The condition is true of exactly the rows whose cells are the columns it reads. */
  lemma TrueOfColumns(cond: Expr, row: Row<Expr>, w: World<Expr>, rows: seq<Row<Expr>>)
    requires CheckFilterRefs(cond) && w == TermWorld(cond, rows)
    ensures Passes(Some(cond), row, w) <==> forall i :: i in Columns(cond) ==> Cells(row, w)(i) == Column(i)
  {
    Rebuilt(cond, Cells(row, w), w);
  }

  /** If it is true of the row of columns projected, the projection passes them through. */
  lemma TruePassesThrough(cond: Expr, exprs: seq<Expr>, n: nat, w: World<Expr>)
    requires CheckFilterRefs(cond) && w == TermWorld(cond, [ColumnRow(n)])
    requires forall i :: 0 <= i < |exprs| ==> Deterministic(exprs[i])
    requires Passes(Some(cond), ProjectRow(exprs, ColumnRow(n), w), w)
    ensures PassesThrough(exprs, Some(cond))
  {
    var after := ProjectRow(exprs, ColumnRow(n), w);
    TrueOfColumns(cond, after, w, [ColumnRow(n)]);
    forall i | i in Columns(cond) ensures i < |exprs| && exprs[i] == Column(i) {
      assert Cells(after, w)(i) == Column(i);
      OnlyColumns(exprs[i], i, n, w, cond);
    }
  }

  /** Without the guard, the swap loses the one row of some table. */
  lemma NotPassedThrough(cond: Expr, exprs: seq<Expr>) returns (row: Row<Expr>, w: World<Expr>)
    requires CheckFilterRefs(cond)
    requires forall i :: 0 <= i < |exprs| ==> Deterministic(exprs[i])
    requires !PassesThrough(exprs, Some(cond))
    ensures w == TermWorld(cond, [row])
    ensures FilterRows(Some(cond), ProjectRows(exprs, [row], w), w)
         != ProjectRows(exprs, FilterRows(Some(cond), [row], w), w)
  {
    var n := ColumnsBelow(cond);
    row := ColumnRow(n);
    w := TermWorld(cond, [row]);
    TrueOfColumns(cond, row, w, [row]);
    if Passes(Some(cond), ProjectRow(exprs, row, w), w) {
      TruePassesThrough(cond, exprs, n, w);
    }
    OneRow(Some(cond), exprs, row, w);
  }

  /**
   * Swapping a filter the pushdown accepts with a projection changes no rows, whatever the operators do and whatever
   * rows come in, if and only if the projection passes each column the filter reads through at the same index.
   */
  lemma PushdownIsExact(cond: Option<Expr>, exprs: seq<Expr>)
    requires cond.Some? ==> CheckFilterRefs(cond.value)
    requires forall i :: 0 <= i < |exprs| ==> Deterministic(exprs[i])
    ensures PassesThrough(exprs, cond) <==> forall w: World<Expr> :: SwapPreserves(cond, exprs, w)
  {
    if PassesThrough(exprs, cond) {
      forall w: World<Expr> ensures SwapPreserves(cond, exprs, w) {
        PassedThroughCommutes(cond, exprs, w);
        SwapIsExact(cond, exprs, w);
      }
    } else {
      var row, w := NotPassedThrough(cond.value, exprs);
      assert !SwapPreserves(cond, exprs, w);
    }
  }

  // ---- whole plans ----

  /** The projection a filter over `p` meets once the filters in `p` that can be pushed have been pushed. */
  function Met(p: Plan): Option<seq<Expr>> {
    match p
    case Projection(exprs, child) => if child.Some? then Some(exprs) else None
    case Filter(cond, child) =>
      if cond.Some? ==> CheckFilterRefs(cond.value) then Met(child) else None
    case _ => None
  }

  /** That projection is on top of the rewritten plan. */
  lemma {:induction false} MetIsOnTop(p: Plan)
    ensures var q := FilterPushdown(p);
      Met(p) == if q.Projection? && q.input.Some? then Some(q.exprs) else None
  {
    match p
    case Filter(_, child) => MetIsOnTop(child);
    case _ =>
  }

  /** Every filter that is pushed reads only columns its projection passes through at the same index. */
  predicate Safe(p: Plan) {
    match p
    case Scan(_) => true
    case Filter(cond, child) =>
      Safe(child) &&
      (Met(p).Some? ==> PassesThrough(Met(p).value, cond))
    case Projection(_, child) => child.Some? ==> Safe(child.value)
    case Other(_, children) => forall i :: 0 <= i < |children| ==> Safe(children[i])
  }

  /** Pushdown changes no row of a safe plan, on any tables. */
  lemma {:induction false} PushdownPreservesRows<V(!new)>(p: Plan, w: World<V>)
    requires PlanOk(p) && Safe(p)
    ensures PlanOk(FilterPushdown(p)) && Rows(FilterPushdown(p), w) == Rows(p, w)
  {
    match p
    case Scan(_) =>
    case Filter(cond, child) =>
      PushdownPreservesRows(child, w);
      MetIsOnTop(child);
      var c := FilterPushdown(child);
      if Swaps(cond, c) {
        PassedThroughCommutes(cond, c.exprs, w);
        SwapRows(cond, c.exprs, Rows(c.input.value, w), w);
      }
    case Projection(exprs, child) =>
      if child.Some? {
        PushdownPreservesRows(child.value, w);
      }
    case Other(op, children) =>
      var pushed := FilterPushdown(p).children;
      forall i | 0 <= i < |children| ensures PlanOk(pushed[i]) && Rows(pushed[i], w) == Rows(children[i], w) {
        PushdownPreservesRows(children[i], w);
      }
      SameChildren(pushed, children, w);
  }

  /** A filter over a projection of a table. */
  function FilteredView(cond: Option<Expr>, exprs: seq<Expr>, t: nat): Plan {
    Filter(cond, Projection(exprs, Some(Scan(t))))
  }

  lemma ViewPushed(cond: Option<Expr>, exprs: seq<Expr>, t: nat)
    requires cond.Some? ==> CheckFilterRefs(cond.value)
    ensures FilterPushdown(FilteredView(cond, exprs, t)) == Projection(exprs, Some(Filter(cond, Scan(t))))
    ensures Safe(FilteredView(cond, exprs, t)) <==> PassesThrough(exprs, cond)
  {
    var view := Projection(exprs, Some(Scan(t)));
    assert FilterPushdown(view) == view && Swaps(cond, view);
    assert Met(view) == Some(exprs) && Safe(Scan(t));
  }

  /** The pushdown returns the same rows for such a plan, on all tables, if and only if the plan is safe. */
  lemma ViewPushdownIsExact(cond: Option<Expr>, exprs: seq<Expr>, t: nat)
    requires PlanOk(FilteredView(cond, exprs, t)) && (cond.Some? ==> CheckFilterRefs(cond.value))
    ensures PlanOk(FilterPushdown(FilteredView(cond, exprs, t)))
    ensures Safe(FilteredView(cond, exprs, t)) <==> forall w: World<Expr> ::
        Rows(FilterPushdown(FilteredView(cond, exprs, t)), w) == Rows(FilteredView(cond, exprs, t), w)
  {
    var p := FilteredView(cond, exprs, t);
    ViewPushed(cond, exprs, t);
    if Safe(p) {
      forall w: World<Expr> ensures Rows(FilterPushdown(p), w) == Rows(p, w) {
        PushdownPreservesRows(p, w);
      }
    } else {
      var w := ViewLosesRow(cond.value, exprs, t);
    }
  }

  lemma ViewLosesRow(cond: Expr, exprs: seq<Expr>, t: nat) returns (w: World<Expr>)
    requires CheckFilterRefs(cond) && !PassesThrough(exprs, Some(cond))
    requires forall i :: 0 <= i < |exprs| ==> Deterministic(exprs[i])
    ensures var p := FilteredView(Some(cond), exprs, t);
      PlanOk(p) && PlanOk(FilterPushdown(p)) && Rows(FilterPushdown(p), w) != Rows(p, w)
  {
    var row;
    row, w := NotPassedThrough(cond, exprs);
    ViewRows(Some(cond), exprs, t, w);
    assert w.table(t) == [row];
  }

  /** What the plan and its rewriting return. */
  lemma ViewRows<V>(cond: Option<Expr>, exprs: seq<Expr>, t: nat, w: World<V>)
    requires cond.Some? ==> CheckFilterRefs(cond.value)
    requires forall i :: 0 <= i < |exprs| ==> Deterministic(exprs[i])
    ensures var p := FilteredView(cond, exprs, t);
      && PlanOk(p) && Rows(p, w) == FilterRows(cond, ProjectRows(exprs, w.table(t), w), w)
      && PlanOk(FilterPushdown(p))
      && Rows(FilterPushdown(p), w) == ProjectRows(exprs, FilterRows(cond, w.table(t), w), w)
  {
    ViewPushed(cond, exprs, t);
    var scan := Scan(t);
    assert PlanOk(scan) && Rows(scan, w) == w.table(t);
    var view, kept := Projection(exprs, Some(scan)), Filter(cond, scan);
    assert PlanOk(view) && Rows(view, w) == ProjectRows(exprs, w.table(t), w);
    assert PlanOk(kept) && Rows(kept, w) == FilterRows(cond, w.table(t), w);
  }

  // ---- where the missing guard matters ----

  /** Equality that is true of equal values that are not null, and of nothing else. */
  ghost predicate DecidesEquality<V(!new)>(w: World<V>) {
    forall a, b :: w.truth(w.sem.binary(Compare, "=", a, b)) <==> a == b && a != w.sem.lit(NullLiteral(0))
  }

  function Equals<V>(i: nat, v: V, w: World<V>): (r: Option<Expr>)
    ensures r.Some? && Deterministic(r.value)
  {
    Some(Comparison("=", Column(i), Constant(w.constant(v))))
  }

  /**
   * Pushing every filter "column i = v" below a projection is right for every table
   * if and only if the projection returns column i unchanged.
   */
  lemma EqualityPushdownIsExact<V(!new)>(i: nat, exprs: seq<Expr>, w: World<V>)
    requires i < |exprs| && forall j :: 0 <= j < |exprs| ==> Deterministic(exprs[j])
    requires Faithful(w) && DecidesEquality(w)
    ensures (forall v: V :: Commutes(Equals(i, v, w), exprs, w)) <==>
      forall row: Row<V> :: Eval(exprs[i], Cells(row, w), w.aggs, w.sem) == Cells(row, w)(i)
  {
    if forall v: V :: Commutes(Equals(i, v, w), exprs, w) {
      forall row: Row<V> ensures Eval(exprs[i], Cells(row, w), w.aggs, w.sem) == Cells(row, w)(i) {
        var before, after := Cells(row, w)(i), Eval(exprs[i], Cells(row, w), w.aggs, w.sem);
        EqualsPasses(i, before, exprs, row, w);
        EqualsPasses(i, after, exprs, row, w);
      }
    }
    if forall row: Row<V> :: Eval(exprs[i], Cells(row, w), w.aggs, w.sem) == Cells(row, w)(i) {
      forall v: V ensures Commutes(Equals(i, v, w), exprs, w) {
        forall row: Row<V>
          ensures Passes(Equals(i, v, w), ProjectRow(exprs, row, w), w) <==> Passes(Equals(i, v, w), row, w)
        {
          EqualsPasses(i, v, exprs, row, w);
        }
      }
    }
  }

  lemma EqualsPasses<V(!new)>(i: nat, v: V, exprs: seq<Expr>, row: Row<V>, w: World<V>)
    requires i < |exprs| && forall j :: 0 <= j < |exprs| ==> Deterministic(exprs[j])
    requires Faithful(w) && DecidesEquality(w)
    ensures Passes(Equals(i, v, w), row, w) <==> Cells(row, w)(i) == v && v != w.sem.lit(NullLiteral(0))
    ensures Passes(Equals(i, v, w), ProjectRow(exprs, row, w), w) <==>
      Eval(exprs[i], Cells(row, w), w.aggs, w.sem) == v && v != w.sem.lit(NullLiteral(0))
    ensures Commutes(Equals(i, v, w), exprs, w) ==>
      (Passes(Equals(i, v, w), ProjectRow(exprs, row, w), w) <==> Passes(Equals(i, v, w), row, w))
  {
    EqualsValue(i, v, row, w);
    EqualsValue(i, v, ProjectRow(exprs, row, w), w);
    assert Cells(ProjectRow(exprs, row, w), w)(i) == Eval(exprs[i], Cells(row, w), w.aggs, w.sem);
  }

  lemma EqualsValue<V(!new)>(i: nat, v: V, row: Row<V>, w: World<V>)
    requires Faithful(w) && DecidesEquality(w)
    ensures Passes(Equals(i, v, w), row, w) <==> Cells(row, w)(i) == v && v != w.sem.lit(NullLiteral(0))
  {
    var e := Equals(i, v, w).value;
    assert Eval(e.left, Cells(row, w), w.aggs, w.sem) == Cells(row, w)(i);
    assert Eval(e.right, Cells(row, w), w.aggs, w.sem) == w.sem.lit(w.constant(v)) == v;
  }

  // ---- a plan the pushdown changes ----

  datatype Cell = Empty | Num(n: int) | Flag(b: bool)

  /** Integers with "=" and "+"; one table with the single row 1. */
  function SmallWorld(): World<Cell> {
    World(
      Sem(
        (l: Literal) =>
          match l
          case NullLiteral(_) => Empty
          case Comparable(n) => Num(n)
          case Incomparable(n) => Flag(n == 1)
          case Floating(_) => Empty,
        (shape, op, a: Cell, b: Cell) =>
          if a.Num? && b.Num? && shape == Compute then Num(a.n + b.n) else Flag(a == b),
        a => a, a => a, (isNot, a) => a, (test, isNot, a) => a, (target, isTry, a) => a,
        (name, isDistinct, vs) => Empty),
      e => Empty,
      v => v == Flag(true),
      (v: Cell) =>
        match v
        case Empty => NullLiteral(0)
        case Num(n) => Comparable(n)
        case Flag(b) => Incomparable(if b then 1 else 0),
      t => [[Num(1)]],
      (op, inputs) => [])
  }

  /** SELECT * FROM (SELECT x + 1 FROM t) WHERE column 0 = 2. */
  const SHIFTED: Plan :=
    Filter(Some(Comparison("=", Column(0), Constant(Comparable(2)))),
           Projection([Arithmetic("+", Column(0), Constant(Comparable(1)))], Some(Scan(0))))

  /** The pushdown makes the filter read the column before the addition: the row is lost. */
  lemma PushdownCanBeWrong()
    ensures PlanOk(SHIFTED) && !Safe(SHIFTED) && PlanOk(FilterPushdown(SHIFTED)) && Faithful(SmallWorld())
    ensures Rows(SHIFTED, SmallWorld()) == [[Num(2)]]
    ensures Rows(FilterPushdown(SHIFTED), SmallWorld()) == []
  {
    ShiftedPlan();
    SmallIsFaithful();
    ShiftedRows();
    PushedRows();
  }

  lemma ShiftedPlan()
    ensures PlanOk(SHIFTED) && !Safe(SHIFTED)
    ensures FilterPushdown(SHIFTED) == Projection(SHIFTED.child.exprs, Some(Filter(SHIFTED.condition, Scan(0))))
    ensures PlanOk(FilterPushdown(SHIFTED))
  {
    var cond, proj := SHIFTED.condition, SHIFTED.child;
    assert FilterPushdown(proj) == proj && Swaps(cond, proj);
    assert 0 in Columns(cond.value);
  }

  lemma SmallIsFaithful()
    ensures Faithful(SmallWorld())
  {
  }

  lemma ShiftedRows()
    ensures Rows(SHIFTED, SmallWorld()) == [[Num(2)]]
  {
    var w, cond, exprs := SmallWorld(), SHIFTED.condition, SHIFTED.child.exprs;
    assert Rows(Scan(0), w) == [[Num(1)]];
    ProjectOne(exprs, [Num(1)], w);
    assert ProjectRow(exprs, [Num(1)], w) == [Num(2)];
    FilterOne(cond, [Num(2)], w);
    SmallPasses(2);
  }

  lemma PushedRows()
    ensures Rows(Projection(SHIFTED.child.exprs, Some(Filter(SHIFTED.condition, Scan(0)))), SmallWorld()) == []
  {
    var w := SmallWorld();
    assert Rows(Scan(0), w) == [[Num(1)]];
    FilterOne(SHIFTED.condition, [Num(1)], w);
    SmallPasses(1);
    assert ProjectRows(SHIFTED.child.exprs, [], w) == [];
  }

  lemma SmallPasses(n: int)
    ensures Passes(SHIFTED.condition, [Num(n)], SmallWorld()) <==> n == 2
  {
    var w, e := SmallWorld(), SHIFTED.condition.value;
    assert Eval(e.left, Cells([Num(n)], w), w.aggs, w.sem) == Num(n);
    assert Eval(e.right, Cells([Num(n)], w), w.aggs, w.sem) == Num(2);
  }
}
