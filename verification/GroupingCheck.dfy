/** The binder's check that every selected expression is determined by the GROUP BY keys. */
module GroupingCheck {
  datatype Option<T> = None | Some(value: T)

  /** A constant. The value comparison has no case for some types (dates, times): they equal nothing. */
  datatype Literal = NullLiteral(typeId: nat) | Comparable(n: int) | Floating(f: Float) | Incomparable(n: int)

  datatype Float = Zero(negative: bool) | NotANumber(bits: nat) | NonZero(bits: nat)

  datatype BoolTest = IsTrue | IsFalse | IsUnknown

  datatype Expr =
    | Column(index: nat)
    | Constant(lit: Literal)
    | Comparison(op: string, left: Expr, right: Expr)
    | Conjunction(op: string, left: Expr, right: Expr)
    | Arithmetic(op: string, left: Expr, right: Expr)
    | Negation(child: Expr)
    | UnaryMinus(child: Expr)
    | IsNull(child: Expr, isNot: bool)
    | IsBool(child: Expr, test: BoolTest, isNot: bool)
    | Cast(child: Expr, target: nat, isTry: bool)
    | Function(name: string, args: seq<Expr>, isAggregate: bool, isDistinct: bool, filter: Option<Expr>)
    | Subquery(id: nat)
    | Window(id: nat)

  // ---- the code ----

  /** Nulls of all types are equal, and so are both zeros; a NaN does not equal itself. */
  predicate LiteralEqual(a: Literal, b: Literal) {
    match (a, b)
    case (NullLiteral(_), NullLiteral(_)) => true
    case (Comparable(m), Comparable(n)) => m == n
    case (Floating(Zero(_)), Floating(Zero(_))) => true
    case (Floating(NonZero(m)), Floating(NonZero(n))) => m == n
    case _ => false
  }

  /** Structural comparison as the binder does it: it skips the NOT of IS NULL and the TRY of a cast. */
  predicate BoundExprEqual(a: Expr, b: Expr) {
    match (a, b)
    case (Column(i), Column(j)) => i == j
    case (Constant(l), Constant(m)) => LiteralEqual(l, m)
    case (Arithmetic(o, l, r), Arithmetic(p, m, s)) => o == p && BoundExprEqual(l, m) && BoundExprEqual(r, s)
    case (Comparison(o, l, r), Comparison(p, m, s)) => o == p && BoundExprEqual(l, m) && BoundExprEqual(r, s)
    case (Conjunction(o, l, r), Conjunction(p, m, s)) => o == p && BoundExprEqual(l, m) && BoundExprEqual(r, s)
    case (Negation(c), Negation(d)) => BoundExprEqual(c, d)
    case (IsNull(c, _), IsNull(d, _)) => BoundExprEqual(c, d)
    case (UnaryMinus(c), UnaryMinus(d)) => BoundExprEqual(c, d)
    case (Cast(c, t, _), Cast(d, u, _)) => t == u && BoundExprEqual(c, d)
    case (Function(f, x, _, _, _), Function(g, y, _, _, _)) =>
      f == g && |x| == |y| && forall i :: 0 <= i < |x| ==> BoundExprEqual(x[i], y[i])
    case _ => false
  }

  predicate HasUngroupedColumn(e: Expr, keys: seq<Expr>) {
    if exists g :: 0 <= g < |keys| && BoundExprEqual(e, keys[g]) then false
    else match e
      case Column(_) => true
      case Function(_, args, isAggregate, _, filter) =>
        !isAggregate &&
        ((exists i :: 0 <= i < |args| && HasUngroupedColumn(args[i], keys))
         || (filter.Some? && HasUngroupedColumn(filter.value, keys)))
      case Comparison(_, l, r) => HasUngroupedColumn(l, keys) || HasUngroupedColumn(r, keys)
      case Conjunction(_, l, r) => HasUngroupedColumn(l, keys) || HasUngroupedColumn(r, keys)
      case Arithmetic(_, l, r) => HasUngroupedColumn(l, keys) || HasUngroupedColumn(r, keys)
      case Negation(c) => HasUngroupedColumn(c, keys)
      case IsNull(c, _) => HasUngroupedColumn(c, keys)
      case IsBool(c, _, _) => HasUngroupedColumn(c, keys)
      case UnaryMinus(c) => HasUngroupedColumn(c, keys)
      case Cast(c, _, _) => HasUngroupedColumn(c, keys)
      case Constant(_) => false
      case Subquery(_) => false
      case Window(_) => false
  }

  predicate ContainsAggregate(e: Expr) {
    match e
    case Function(_, args, isAggregate, _, filter) =>
      isAggregate || (exists i :: 0 <= i < |args| && ContainsAggregate(args[i]))
      || (filter.Some? && ContainsAggregate(filter.value))
    case Comparison(_, l, r) => ContainsAggregate(l) || ContainsAggregate(r)
    case Conjunction(_, l, r) => ContainsAggregate(l) || ContainsAggregate(r)
    case Arithmetic(_, l, r) => ContainsAggregate(l) || ContainsAggregate(r)
    case Negation(c) => ContainsAggregate(c)
    case IsNull(c, _) => ContainsAggregate(c)
    case IsBool(c, _, _) => ContainsAggregate(c)
    case UnaryMinus(c) => ContainsAggregate(c)
    case Cast(c, _, _) => ContainsAggregate(c)
    case _ => false
  }

  // ---- meaning ----

  /** What every operator does to values: any functions at all. */
  datatype Sem<!V> = Sem(
    lit: Literal -> V,
    binary: (Shape, string, V, V) -> V,
    negation: V -> V,
    minus: V -> V,
    isNull: (bool, V) -> V,
    isBool: (BoolTest, bool, V) -> V,
    cast: (nat, bool, V) -> V,
    call: (string, bool, seq<V>) -> V)

  datatype Shape = Compare | Connect | Compute

  /** The value of `e` for a row, given the group's aggregate results. */
  ghost function Eval<V>(e: Expr, row: nat -> V, aggs: Expr -> V, sem: Sem<V>): V
    requires Deterministic(e)
  {
    match e
    case Column(i) => row(i)
    case Constant(l) => sem.lit(l)
    case Comparison(o, l, r) => sem.binary(Compare, o, Eval(l, row, aggs, sem), Eval(r, row, aggs, sem))
    case Conjunction(o, l, r) => sem.binary(Connect, o, Eval(l, row, aggs, sem), Eval(r, row, aggs, sem))
    case Arithmetic(o, l, r) => sem.binary(Compute, o, Eval(l, row, aggs, sem), Eval(r, row, aggs, sem))
    case Negation(c) => sem.negation(Eval(c, row, aggs, sem))
    case UnaryMinus(c) => sem.minus(Eval(c, row, aggs, sem))
    case IsNull(c, isNot) => sem.isNull(isNot, Eval(c, row, aggs, sem))
    case IsBool(c, test, isNot) => sem.isBool(test, isNot, Eval(c, row, aggs, sem))
    case Cast(c, t, isTry) => sem.cast(t, isTry, Eval(c, row, aggs, sem))
    case Function(f, args, isAggregate, isDistinct, _) =>
      if isAggregate then aggs(e)
      else sem.call(f, isDistinct, seq(|args|, i requires 0 <= i < |args| => Eval(args[i], row, aggs, sem)))
  }

  /** No subquery or window, and no filter outside an aggregate: the value is a function of the row. */
  predicate Deterministic(e: Expr) {
    match e
    case Column(_) => true
    case Constant(_) => true
    case Comparison(_, l, r) => Deterministic(l) && Deterministic(r)
    case Conjunction(_, l, r) => Deterministic(l) && Deterministic(r)
    case Arithmetic(_, l, r) => Deterministic(l) && Deterministic(r)
    case Negation(c) => Deterministic(c)
    case UnaryMinus(c) => Deterministic(c)
    case IsNull(c, _) => Deterministic(c)
    case IsBool(c, _, _) => Deterministic(c)
    case Cast(c, _, _) => Deterministic(c)
    case Function(_, args, isAggregate, _, filter) =>
      isAggregate || (filter.None? && forall i :: 0 <= i < |args| ==> Deterministic(args[i]))
    case Subquery(_) => false
    case Window(_) => false
  }

  ghost predicate KeysOk(keys: seq<Expr>) {
    forall g :: 0 <= g < |keys| ==> Deterministic(keys[g]) && !ContainsAggregate(keys[g])
  }

  ghost predicate SameKeys<V(!new)>(keys: seq<Expr>, r1: nat -> V, r2: nat -> V, aggs: Expr -> V, sem: Sem<V>)
    requires KeysOk(keys)
  {
    forall g :: 0 <= g < |keys| ==> Eval(keys[g], r1, aggs, sem) == Eval(keys[g], r2, aggs, sem)
  }

  /** One value per group: rows that agree on all keys agree on `e`. */
  ghost predicate OnePerGroup<V(!new)>(e: Expr, keys: seq<Expr>, sem: Sem<V>)
    requires Deterministic(e) && KeysOk(keys)
  {
    forall r1: nat -> V, r2: nat -> V, aggs: Expr -> V :: SameKeys(keys, r1, r2, aggs, sem) ==>
      Eval(e, r1, aggs, sem) == Eval(e, r2, aggs, sem)
  }

  // ---- the check with exact comparison ----

  /** Built from keys, constants and aggregates, where a key must be matched exactly. */
  predicate Grouped(e: Expr, keys: seq<Expr>) {
    e in keys ||
    match e
    case Column(_) => false
    case Constant(_) => true
    case Comparison(_, l, r) => Grouped(l, keys) && Grouped(r, keys)
    case Conjunction(_, l, r) => Grouped(l, keys) && Grouped(r, keys)
    case Arithmetic(_, l, r) => Grouped(l, keys) && Grouped(r, keys)
    case Negation(c) => Grouped(c, keys)
    case UnaryMinus(c) => Grouped(c, keys)
    case IsNull(c, _) => Grouped(c, keys)
    case IsBool(c, _, _) => Grouped(c, keys)
    case Cast(c, _, _) => Grouped(c, keys)
    case Function(_, args, isAggregate, _, _) =>
      isAggregate || forall i :: 0 <= i < |args| ==> Grouped(args[i], keys)
    case Subquery(_) => true
    case Window(_) => true
  }

  /** Whatever the operators do, a grouped expression has one value per group. */
  lemma {:induction false} GroupedIsSound<V(!new)>(e: Expr, keys: seq<Expr>, r1: nat -> V, r2: nat -> V,
                                                   aggs: Expr -> V, sem: Sem<V>)
    requires Deterministic(e) && KeysOk(keys) && Grouped(e, keys) && SameKeys(keys, r1, r2, aggs, sem)
    ensures Eval(e, r1, aggs, sem) == Eval(e, r2, aggs, sem)
  {
    if e in keys {
      var g :| 0 <= g < |keys| && keys[g] == e;
    } else {
      match e
      case Column(_) =>
      case Constant(_) =>
      case Comparison(_, l, r) =>
        GroupedIsSound(l, keys, r1, r2, aggs, sem);
        GroupedIsSound(r, keys, r1, r2, aggs, sem);
      case Conjunction(_, l, r) =>
        GroupedIsSound(l, keys, r1, r2, aggs, sem);
        GroupedIsSound(r, keys, r1, r2, aggs, sem);
      case Arithmetic(_, l, r) =>
        GroupedIsSound(l, keys, r1, r2, aggs, sem);
        GroupedIsSound(r, keys, r1, r2, aggs, sem);
      case Negation(c) => GroupedIsSound(c, keys, r1, r2, aggs, sem);
      case UnaryMinus(c) => GroupedIsSound(c, keys, r1, r2, aggs, sem);
      case IsNull(c, _) => GroupedIsSound(c, keys, r1, r2, aggs, sem);
      case IsBool(c, _, _) => GroupedIsSound(c, keys, r1, r2, aggs, sem);
      case Cast(c, _, _) => GroupedIsSound(c, keys, r1, r2, aggs, sem);
      case Function(_, args, isAggregate, _, _) =>
        if !isAggregate {
          forall i | 0 <= i < |args| ensures Eval(args[i], r1, aggs, sem) == Eval(args[i], r2, aggs, sem) {
            GroupedIsSound(args[i], keys, r1, r2, aggs, sem);
          }
          SameArgs(args, r1, r2, aggs, sem);
        }
    }
  }

  ghost function EvalAll<V>(args: seq<Expr>, row: nat -> V, aggs: Expr -> V, sem: Sem<V>): seq<V>
    requires forall i :: 0 <= i < |args| ==> Deterministic(args[i])
  {
    seq(|args|, i requires 0 <= i < |args| => Eval(args[i], row, aggs, sem))
  }

  lemma SameArgs<V(!new)>(args: seq<Expr>, r1: nat -> V, r2: nat -> V, aggs: Expr -> V, sem: Sem<V>)
    requires forall i :: 0 <= i < |args| ==> Deterministic(args[i])
    requires forall i :: 0 <= i < |args| ==> Eval(args[i], r1, aggs, sem) == Eval(args[i], r2, aggs, sem)
    ensures EvalAll(args, r1, aggs, sem) == EvalAll(args, r2, aggs, sem)
  {
  }

  // ---- a semantics in which nothing else is determined ----

  /** A value that remembers the expression it came from, and the row if the keys do not determine it. */
  datatype Meaning = Fixed(e: Expr) | Varies(tag: nat, e: Expr)

  function Term(keys: seq<Expr>, e: Expr, tag: nat): (m: Meaning)
    ensures m.e == e
  {
    if Grouped(e, keys) then Fixed(e) else Varies(tag, e)
  }

  function Tag(m: Meaning): nat {
    if m.Varies? then m.tag else 0
  }

  function Tags(ms: seq<Meaning>): nat {
    if ms == [] then 0 else if ms[0].Varies? then ms[0].tag else Tags(ms[1..])
  }

  function Build(shape: Shape, op: string, l: Expr, r: Expr): Expr {
    match shape
    case Compare => Comparison(op, l, r)
    case Connect => Conjunction(op, l, r)
    case Compute => Arithmetic(op, l, r)
  }

  function ExprsOf(ms: seq<Meaning>): seq<Expr> {
    seq(|ms|, i requires 0 <= i < |ms| => ms[i].e)
  }

  /** Every operator rebuilds the expression and asks whether the keys determine it. */
  function FreeSem(keys: seq<Expr>): Sem<Meaning> {
    Sem(
      l => Fixed(Constant(l)),
      (shape, op, v: Meaning, w: Meaning) =>
        Term(keys, Build(shape, op, v.e, w.e), if v.Varies? then v.tag else Tag(w)),
      (v: Meaning) => Term(keys, Negation(v.e), Tag(v)),
      (v: Meaning) => Term(keys, UnaryMinus(v.e), Tag(v)),
      (isNot, v: Meaning) => Term(keys, IsNull(v.e, isNot), Tag(v)),
      (test, isNot, v: Meaning) => Term(keys, IsBool(v.e, test, isNot), Tag(v)),
      (target, isTry, v: Meaning) => Term(keys, Cast(v.e, target, isTry), Tag(v)),
      (name, isDistinct, vs: seq<Meaning>) =>
        Term(keys, Function(name, ExprsOf(vs), false, isDistinct, None), Tags(vs)))
  }

  function FreeRow(keys: seq<Expr>, tag: nat): nat -> Meaning {
    (i: nat) => Term(keys, Column(i), tag)
  }

  function FreeAggs(): Expr -> Meaning {
    e => Fixed(e)
  }

  lemma {:induction false} TagsOfTerms(keys: seq<Expr>, args: seq<Expr>, tag: nat, ms: seq<Meaning>)
    requires |ms| == |args| && forall i :: 0 <= i < |args| ==> ms[i] == Term(keys, args[i], tag)
    ensures ExprsOf(ms) == args
    ensures (exists i :: 0 <= i < |args| && !Grouped(args[i], keys)) ==> Tags(ms) == tag
  {
    if ms != [] && !ms[0].Varies? {
      TagsOfTerms(keys, args[1..], tag, ms[1..]);
      if i :| 0 <= i < |args| && !Grouped(args[i], keys) {
        assert args[1..][i - 1] == args[i];
      }
    }
  }

  /** Evaluation in the free semantics. */
  lemma {:induction false} FreeEval(keys: seq<Expr>, e: Expr, tag: nat)
    requires Deterministic(e)
    ensures Eval(e, FreeRow(keys, tag), FreeAggs(), FreeSem(keys)) == Term(keys, e, tag)
  {
    var row, aggs, sem := FreeRow(keys, tag), FreeAggs(), FreeSem(keys);
    match e
    case Column(_) =>
    case Constant(_) =>
    case Comparison(_, l, r) => FreeEval(keys, l, tag); FreeEval(keys, r, tag);
    case Conjunction(_, l, r) => FreeEval(keys, l, tag); FreeEval(keys, r, tag);
    case Arithmetic(_, l, r) => FreeEval(keys, l, tag); FreeEval(keys, r, tag);
    case Negation(c) => FreeEval(keys, c, tag);
    case UnaryMinus(c) => FreeEval(keys, c, tag);
    case IsNull(c, _) => FreeEval(keys, c, tag);
    case IsBool(c, _, _) => FreeEval(keys, c, tag);
    case Cast(c, _, _) => FreeEval(keys, c, tag);
    case Function(_, args, isAggregate, _, _) =>
      if !isAggregate {
        forall i | 0 <= i < |args| ensures Eval(args[i], row, aggs, sem) == Term(keys, args[i], tag) {
          FreeEval(keys, args[i], tag);
        }
        TagsOfTerms(keys, args, tag, EvalAll(args, row, aggs, sem));
      }
  }

  /** An expression that is not grouped can differ between two rows of one group. */
  lemma UngroupedDiffers(e: Expr, keys: seq<Expr>)
    requires Deterministic(e) && KeysOk(keys) && !Grouped(e, keys)
    ensures !OnePerGroup(e, keys, FreeSem(keys))
  {
    var r1, r2, aggs, sem := FreeRow(keys, 1), FreeRow(keys, 2), FreeAggs(), FreeSem(keys);
    forall g | 0 <= g < |keys| ensures Eval(keys[g], r1, aggs, sem) == Eval(keys[g], r2, aggs, sem) {
      FreeEval(keys, keys[g], 1);
      FreeEval(keys, keys[g], 2);
    }
    FreeEval(keys, e, 1);
    FreeEval(keys, e, 2);
    assert SameKeys(keys, r1, r2, aggs, sem);
  }

  /** Exactly the grouped expressions have one value per group whatever the operators do. */
  lemma GroupedIsExact(e: Expr, keys: seq<Expr>)
    requires Deterministic(e) && KeysOk(keys)
    ensures Grouped(e, keys) <==> forall sem: Sem<Meaning> :: OnePerGroup(e, keys, sem)
  {
    if Grouped(e, keys) {
      forall sem: Sem<Meaning> ensures OnePerGroup(e, keys, sem) {
        forall r1, r2, aggs | SameKeys(keys, r1, r2, aggs, sem)
          ensures Eval(e, r1, aggs, sem) == Eval(e, r2, aggs, sem)
        {
          GroupedIsSound(e, keys, r1, r2, aggs, sem);
        }
      }
    } else {
      UngroupedDiffers(e, keys);
    }
  }

  // ---- when the code's comparison is exact ----

  /** The comparison has a case for every part of the expression. */
  predicate AllComparable(e: Expr) {
    match e
    case Column(_) => true
    case Constant(l) => LiteralEqual(l, l)
    case Comparison(_, l, r) => AllComparable(l) && AllComparable(r)
    case Conjunction(_, l, r) => AllComparable(l) && AllComparable(r)
    case Arithmetic(_, l, r) => AllComparable(l) && AllComparable(r)
    case Negation(c) => AllComparable(c)
    case UnaryMinus(c) => AllComparable(c)
    case IsNull(c, _) => AllComparable(c)
    case Cast(c, _, _) => AllComparable(c)
    case Function(_, args, _, _, _) => forall i :: 0 <= i < |args| ==> AllComparable(args[i])
    case IsBool(_, _, _) => false
    case Subquery(_) => false
    case Window(_) => false
  }

  /** No negative zero, and nulls of one type only. */
  predicate PlainLiteral(l: Literal) {
    l != Floating(Zero(true)) && (l.NullLiteral? ==> l.typeId == 0)
  }

  /** The polarity of every IS NULL, the TRY of every cast, and which names are aggregates. */
  datatype Setting = Setting(isNot: bool, isTry: bool, isAgg: string -> bool)

  /** The expression keeps to the setting, and its constants come in one form. */
  predicate Keeps(e: Expr, s: Setting) {
    match e
    case Column(_) => true
    case Constant(l) => PlainLiteral(l)
    case Comparison(_, l, r) => Keeps(l, s) && Keeps(r, s)
    case Conjunction(_, l, r) => Keeps(l, s) && Keeps(r, s)
    case Arithmetic(_, l, r) => Keeps(l, s) && Keeps(r, s)
    case Negation(c) => Keeps(c, s)
    case UnaryMinus(c) => Keeps(c, s)
    case IsNull(c, n) => n == s.isNot && Keeps(c, s)
    case IsBool(c, _, _) => Keeps(c, s)
    case Cast(c, _, t) => t == s.isTry && Keeps(c, s)
    case Function(f, args, isAggregate, isDistinct, filter) =>
      && isAggregate == s.isAgg(f)
      && (!isAggregate ==> !isDistinct && filter.None?)
      && (!isAggregate ==> forall i :: 0 <= i < |args| ==> Keeps(args[i], s))
    case Subquery(_) => true
    case Window(_) => true
  }

  /** Within one setting, what the binder takes for equal is equal. */
  lemma {:induction false} EqualIsSame(a: Expr, b: Expr, s: Setting)
    requires Keeps(a, s) && Keeps(b, s)
    requires !ContainsAggregate(b) && BoundExprEqual(a, b)
    ensures a == b
  {
    match (a, b)
    case (Arithmetic(_, l, r), Arithmetic(_, m, n)) => EqualIsSame(l, m, s); EqualIsSame(r, n, s);
    case (Comparison(_, l, r), Comparison(_, m, n)) => EqualIsSame(l, m, s); EqualIsSame(r, n, s);
    case (Conjunction(_, l, r), Conjunction(_, m, n)) => EqualIsSame(l, m, s); EqualIsSame(r, n, s);
    case (Negation(c), Negation(d)) => EqualIsSame(c, d, s);
    case (IsNull(c, _), IsNull(d, _)) => EqualIsSame(c, d, s);
    case (UnaryMinus(c), UnaryMinus(d)) => EqualIsSame(c, d, s);
    case (Cast(c, _, _), Cast(d, _, _)) => EqualIsSame(c, d, s);
    case (Function(_, x, _, _, _), Function(_, y, _, _, _)) =>
      forall i | 0 <= i < |x| ensures x[i] == y[i] {
        EqualIsSame(x[i], y[i], s);
      }
    case _ =>
  }

  /** The binder takes a comparable expression for equal to itself. */
  lemma {:induction false} EqualToItself(e: Expr)
    requires AllComparable(e)
    ensures BoundExprEqual(e, e)
  {
    match e
    case Comparison(_, l, r) => EqualToItself(l); EqualToItself(r);
    case Conjunction(_, l, r) => EqualToItself(l); EqualToItself(r);
    case Arithmetic(_, l, r) => EqualToItself(l); EqualToItself(r);
    case Negation(c) => EqualToItself(c);
    case UnaryMinus(c) => EqualToItself(c);
    case IsNull(c, _) => EqualToItself(c);
    case Cast(c, _, _) => EqualToItself(c);
    case Function(_, args, _, _, _) =>
      forall i | 0 <= i < |args| ensures BoundExprEqual(args[i], args[i]) {
        EqualToItself(args[i]);
      }
    case _ =>
  }

  // ---- when the check accepts too much ----

  predicate Accepts(keys: seq<Expr>, e: Expr) {
    !HasUngroupedColumn(e, keys)
  }

  /** What the check takes for a key is grouped, among the expressions that keep to `within`, if one is given. */
  ghost predicate LookalikesGrouped(keys: seq<Expr>, within: Option<Setting>) {
    forall g, e | 0 <= g < |keys| && Deterministic(e) && BoundExprEqual(e, keys[g]) ::
      (within.Some? ==> Keeps(e, within.value)) ==> Grouped(e, keys)
  }

  /** Then everything the check accepts is grouped. */
  lemma {:induction false} AcceptedIsGrouped(e: Expr, keys: seq<Expr>, within: Option<Setting>)
    requires Deterministic(e) && Accepts(keys, e) && LookalikesGrouped(keys, within)
    requires within.Some? ==> Keeps(e, within.value)
    ensures Grouped(e, keys)
  {
    if g :| 0 <= g < |keys| && BoundExprEqual(e, keys[g]) {
    } else {
      match e
      case Comparison(_, l, r) => AcceptedIsGrouped(l, keys, within); AcceptedIsGrouped(r, keys, within);
      case Conjunction(_, l, r) => AcceptedIsGrouped(l, keys, within); AcceptedIsGrouped(r, keys, within);
      case Arithmetic(_, l, r) => AcceptedIsGrouped(l, keys, within); AcceptedIsGrouped(r, keys, within);
      case Negation(c) => AcceptedIsGrouped(c, keys, within);
      case UnaryMinus(c) => AcceptedIsGrouped(c, keys, within);
      case IsNull(c, _) => AcceptedIsGrouped(c, keys, within);
      case IsBool(c, _, _) => AcceptedIsGrouped(c, keys, within);
      case Cast(c, _, _) => AcceptedIsGrouped(c, keys, within);
      case Function(_, args, isAggregate, _, _) =>
        if !isAggregate {
          forall i | 0 <= i < |args| ensures Grouped(args[i], keys) {
            AcceptedIsGrouped(args[i], keys, within);
          }
        }
      case _ =>
    }
  }

  /** The check accepts only grouped expressions if and only if it takes only grouped expressions for keys. */
  lemma AllAcceptedGrouped(keys: seq<Expr>)
    ensures (forall e :: Deterministic(e) && Accepts(keys, e) ==> Grouped(e, keys)) <==> LookalikesGrouped(keys, None)
  {
    if LookalikesGrouped(keys, None) {
      forall e | Deterministic(e) && Accepts(keys, e) ensures Grouped(e, keys) {
        AcceptedIsGrouped(e, keys, None);
      }
    }
    if forall e :: Deterministic(e) && Accepts(keys, e) ==> Grouped(e, keys) {
      forall g, e | 0 <= g < |keys| && Deterministic(e) && BoundExprEqual(e, keys[g]) ensures Grouped(e, keys) {
        assert Accepts(keys, e);
      }
    }
  }

  /** Every accepted expression has one value per group whatever the operators do. */
  ghost predicate AcceptedSound(keys: seq<Expr>)
    requires KeysOk(keys)
  {
    forall e | Deterministic(e) && Accepts(keys, e) :: forall sem: Sem<Meaning> :: OnePerGroup(e, keys, sem)
  }

  /** The check is sound for these keys if and only if it takes only grouped expressions for keys. */
  lemma AcceptedSoundIffGrouped(keys: seq<Expr>)
    requires KeysOk(keys)
    ensures AcceptedSound(keys) <==> LookalikesGrouped(keys, None)
  {
    AllAcceptedGrouped(keys);
    forall e | Deterministic(e)
      ensures (forall sem: Sem<Meaning> :: OnePerGroup(e, keys, sem)) <==> Grouped(e, keys)
    {
      GroupedIsExact(e, keys);
    }
  }

  // ---- when the check accepts enough ----

  /** If the keys themselves are accepted, so is everything built from them. */
  lemma {:induction false} BuiltFromKeys(e: Expr, keys: seq<Expr>)
    requires Deterministic(e) && Grouped(e, keys)
    requires forall g :: 0 <= g < |keys| ==> Accepts(keys, keys[g])
    ensures Accepts(keys, e)
  {
    if e in keys {
      var g :| 0 <= g < |keys| && keys[g] == e;
    } else {
      match e
      case Comparison(_, l, r) => BuiltFromKeys(l, keys); BuiltFromKeys(r, keys);
      case Conjunction(_, l, r) => BuiltFromKeys(l, keys); BuiltFromKeys(r, keys);
      case Arithmetic(_, l, r) => BuiltFromKeys(l, keys); BuiltFromKeys(r, keys);
      case Negation(c) => BuiltFromKeys(c, keys);
      case UnaryMinus(c) => BuiltFromKeys(c, keys);
      case IsNull(c, _) => BuiltFromKeys(c, keys);
      case IsBool(c, _, _) => BuiltFromKeys(c, keys);
      case Cast(c, _, _) => BuiltFromKeys(c, keys);
      case Function(_, args, isAggregate, _, _) =>
        if !isAggregate {
          forall i | 0 <= i < |args| ensures !HasUngroupedColumn(args[i], keys) {
            BuiltFromKeys(args[i], keys);
          }
        }
      case _ =>
    }
  }

  /** The check rejects no grouped expression if and only if it rejects no key. */
  lemma AllGroupedAccepted(keys: seq<Expr>)
    requires KeysOk(keys)
    ensures (forall e :: Deterministic(e) && Grouped(e, keys) ==> Accepts(keys, e)) <==>
      forall g :: 0 <= g < |keys| ==> Accepts(keys, keys[g])
  {
    if forall g :: 0 <= g < |keys| ==> Accepts(keys, keys[g]) {
      forall e | Deterministic(e) && Grouped(e, keys) ensures Accepts(keys, e) {
        BuiltFromKeys(e, keys);
      }
    } else {
      var g :| 0 <= g < |keys| && !Accepts(keys, keys[g]);
      assert Deterministic(keys[g]) && Grouped(keys[g], keys);
    }
  }

  /** Comparable keys are accepted: the comparison has a case for every part of them. */
  lemma ComparableKeysAccepted(keys: seq<Expr>)
    requires forall g :: 0 <= g < |keys| ==> AllComparable(keys[g])
    ensures forall g :: 0 <= g < |keys| ==> Accepts(keys, keys[g])
  {
    forall g | 0 <= g < |keys| ensures Accepts(keys, keys[g]) {
      EqualToItself(keys[g]);
    }
  }

  ghost predicate KeysKeep(keys: seq<Expr>, s: Setting) {
    forall g :: 0 <= g < |keys| ==> Keeps(keys[g], s)
  }

  /**
   * Within one setting, and with keys the check accepts, the check is exact:
   * it accepts an expression if and only if the expression has one value per group whatever the operators do.
   */
  lemma CheckIsExact(e: Expr, keys: seq<Expr>, s: Setting)
    requires Deterministic(e) && KeysOk(keys) && Keeps(e, s) && KeysKeep(keys, s)
    requires forall g :: 0 <= g < |keys| ==> Accepts(keys, keys[g])
    ensures Accepts(keys, e) <==> forall sem: Sem<Meaning> :: OnePerGroup(e, keys, sem)
  {
    GroupedIsExact(e, keys);
    if Grouped(e, keys) {
      BuiltFromKeys(e, keys);
    } else if Accepts(keys, e) {
      SameLookalikes(keys, s);
      AcceptedIsGrouped(e, keys, Some(s));
    }
  }

  lemma SameLookalikes(keys: seq<Expr>, s: Setting)
    requires KeysOk(keys) && KeysKeep(keys, s)
    ensures LookalikesGrouped(keys, Some(s))
  {
    forall g, e | 0 <= g < |keys| && Deterministic(e) && BoundExprEqual(e, keys[g]) && Keeps(e, s)
      ensures Grouped(e, keys)
    {
      EqualIsSame(e, keys[g], s);
    }
  }

  /** In particular the check is exact when the comparison has a case for every part of every key. */
  lemma ComparableCheckIsExact(e: Expr, keys: seq<Expr>, s: Setting)
    requires Deterministic(e) && KeysOk(keys) && Keeps(e, s) && KeysKeep(keys, s)
    requires forall g :: 0 <= g < |keys| ==> AllComparable(keys[g])
    ensures Accepts(keys, e) <==> forall sem: Sem<Meaning> :: OnePerGroup(e, keys, sem)
  {
    ComparableKeysAccepted(keys);
    CheckIsExact(e, keys, s);
  }

  /** Grouped by x IS TRUE, x IS TRUE itself is rejected: the comparison has no case for it. */
  lemma BoolTestIsRejected(isNot: bool)
    ensures var e := IsBool(Column(0), IsTrue, isNot);
      Deterministic(e) && KeysOk([e]) && Grouped(e, [e]) && HasUngroupedColumn(e, [e])
  {
    var e := IsBool(Column(0), IsTrue, isNot);
    assert HasUngroupedColumn(Column(0), [e]);
  }
}
