/** When a partial index may be read: the planner's implication test loses no row. */
module Implication {
  import opened ByteStrings
  import opened Values
  import opened ValueOrder
  import opened Exprs

  // ----- Equality of expressions

  /** `==` on expressions: the same tree, with literals equal as values are. */
  predicate SameExpr(a: Expr, b: Expr) {
    match a
    case CompareTo(c, op, v) => b.CompareTo? && c == b.column && op == b.op && Same(v, b.value)
    case In(c, vs) => b.In? && c == b.column && SameValues(vs, b.values)
    case InSorted(c, vs, n) => b.InSorted? && c == b.column && SameValues(vs, b.values) && n == b.anyNull
    case AllOf(ps) => b.AllOf? && |ps| == |b.parts| && forall k | 0 <= k < |ps| :: SameExpr(ps[k], b.parts[k])
    case AnyOf(ps) => b.AnyOf? && |ps| == |b.parts| && forall k | 0 <= k < |ps| :: SameExpr(ps[k], b.parts[k])
    case Not(inner) => b.Not? && SameExpr(inner, b.inner)
    case _ => a == b
  }

  lemma {:induction false} SameRank(a: Value, b: Value)
    requires Same(a, b)
    ensures a.Null? == b.Null?
  {
    assert Rank(a) == Rank(b);
  }

  lemma {:induction false} SameInterchange(a: Value, b: Value, v: Value)
    requires Same(a, b)
    ensures Compare(a, v) == Compare(b, v) && Compare(v, a) == Compare(v, b) && a.Null? == b.Null?
  {
    hide Compare;
    SameRank(a, b);
    CompareChain(a, b, v);
    CompareChain(v, a, b);
  }

  lemma {:induction false} SameListsAgree(a: seq<Value>, b: seq<Value>, v: Value)
    requires SameValues(a, b)
    ensures AnySame(a, v) == AnySame(b, v) && AnyNull(a) == AnyNull(b)
  {
    forall k: nat | k < |a| ensures Same(a[k], v) == Same(b[k], v) && a[k].Null? == b[k].Null? {
      SameInterchange(a[k], b[k], v);
    }
    hide Compare, Same;
  }

  /** One turn of the search goes the same way. */
  lemma {:induction false} SameListsTurn(a: seq<Value>, b: seq<Value>, v: Value, lo: nat, hi: nat)
    requires SameValues(a, b) && lo < hi <= |a|
    ensures Compare(a[lo + (hi - lo) / 2], v) == Compare(b[lo + (hi - lo) / 2], v)
  {
    var mid := lo + (hi - lo) / 2;
    assert Same(a[mid], b[mid]);
    SameInterchange(a[mid], b[mid], v);
    hide Same, Compare;
  }

  lemma {:induction false} SameListsSearched(a: seq<Value>, b: seq<Value>, v: Value, lo: nat, hi: nat)
    requires SameValues(a, b) && lo <= hi <= |a|
    ensures Searched(a, v, lo, hi) == Searched(b, v, lo, hi)
    decreases hi - lo
  {
    hide SameValues, Compare;
    if lo < hi {
      SameListsTurn(a, b, v, lo, hi);
      var mid := lo + (hi - lo) / 2;
      SameListsSearched(a, b, v, mid + 1, hi);
      SameListsSearched(a, b, v, lo, mid);
    }
  }

  /** Equal expressions answer alike, although `1` signed equals `1` unsigned. */
  lemma {:induction false} SameExprAgree(a: Expr, b: Expr, row: Row, world: World)
    requires SameExpr(a, b)
    ensures Evaluate(a, row, world) == Evaluate(b, row, world)
    decreases a, 1
  {
    match a
    case CompareTo(c, _, v) => SameInterchange(v, b.value, At(row, c)); hide Compare;
    case In(c, vs) => SameListsAgree(vs, b.values, At(row, c)); hide Compare, Same;
    case InSorted(c, vs, _) => SameListsSearched(vs, b.values, At(row, c), 0, |vs|); hide Searched;
    case AllOf(ps) => SamePartsAgree(ps, b.parts, |ps|, row, world);
    case AnyOf(ps) => SamePartsAgree(ps, b.parts, |ps|, row, world);
    case Not(inner) => SameExprAgree(inner, b.inner, row, world);
    case _ =>
  }

  lemma {:induction false} SamePartsAgree(a: seq<Expr>, b: seq<Expr>, n: nat, row: Row, world: World)
    requires |a| == |b| && n <= |a| && forall k | 0 <= k < |a| :: SameExpr(a[k], b[k])
    ensures EvaluateAll(a, n, row, world) == EvaluateAll(b, n, row, world)
    ensures EvaluateAny(a, n, row, world) == EvaluateAny(b, n, row, world)
    decreases a, 0, n
  {
    if n > 0 {
      SameExprAgree(a[n - 1], b[n - 1], row, world);
      SamePartsAgree(a, b, n - 1, row, world);
      hide Evaluate, SameExpr;
    }
  }

  // ----- Conjuncts

  /** `conjuncts`: nested conjunctions flattened, trivial ones gone. */
  function Conjuncts(e: Expr): seq<Expr> {
    match e
    case Always => []
    case AllOf(parts) => ConjunctsOf(parts, |parts|)
    case _ => [e]
  }

  function ConjunctsOf(parts: seq<Expr>, n: nat): seq<Expr>
    requires n <= |parts|
    decreases parts, n
  {
    if n == 0 then [] else ConjunctsOf(parts, n - 1) + Conjuncts(parts[n - 1])
  }

  ghost predicate AllHold(es: seq<Expr>, row: Row, world: World) { forall e | e in es :: Admits(e, row, world) }

  lemma {:induction false} AllHoldConcat(a: seq<Expr>, b: seq<Expr>, row: Row, world: World)
    ensures AllHold(a + b, row, world) <==> AllHold(a, row, world) && AllHold(b, row, world)
  {
    hide Admits;
    assert forall e | e in a + b :: e in a || e in b;
    assert forall e | e in a :: e in a + b;
    assert forall e | e in b :: e in a + b;
  }

  /** A row is admitted exactly when every conjunct admits it. */
  lemma {:induction false} ConjunctsHold(e: Expr, row: Row, world: World)
    ensures Admits(e, row, world) <==> AllHold(Conjuncts(e), row, world)
    decreases e, 1
  {
    match e
    case AllOf(parts) => ConjunctsOfHold(parts, |parts|, row, world);
    case _ =>
  }

  lemma {:induction false} ConjunctsOfHold(parts: seq<Expr>, n: nat, row: Row, world: World)
    requires n <= |parts|
    ensures EvaluateAll(parts, n, row, world) == Yes <==> AllHold(ConjunctsOf(parts, n), row, world)
    decreases parts, 0, n
  {
    if n > 0 {
      ConjunctsHold(parts[n - 1], row, world);
      ConjunctsOfHold(parts, n - 1, row, world);
      AllHoldConcat(ConjunctsOf(parts, n - 1), Conjuncts(parts[n - 1]), row, world);
      hide Evaluate, AllHold, Conjuncts;
    }
  }

  // ----- The test

  /** Whether `x held v` forces `x goal g`, from how `v` compares with `g` and `g` with `v`. */
  predicate Forces(held: CmpOp, goal: CmpOp, vg: Ordering, gv: Ordering) {
    match held
    case Eq => goal.Apply(vg)
    case Ne => false
    case _ =>
      match (held, goal)
      case (Lt, Lt) => vg != Greater
      case (Lt, Le) => vg != Greater
      case (Le, Lt) => vg == Less
      case (Le, Le) => vg != Greater
      case (Gt, Gt) => vg != Less
      case (Gt, Ge) => vg != Less
      case (Ge, Gt) => vg == Greater
      case (Ge, Ge) => vg != Less
      case (Lt, Ne) => gv != Less
      case (Le, Ne) => gv == Greater
      case (Gt, Ne) => gv != Greater
      case (Ge, Ne) => gv == Less
      case _ => false
  }

  predicate ComparisonImplies(held: CmpOp, v: Value, goal: CmpOp, g: Value) {
    Forces(held, goal, Compare(v, g), Compare(g, v))
  }

  /** Not knowing what `x` is, only that it has a place in one order with `v` and `g`. */
  ghost predicate Forced(held: CmpOp, goal: CmpOp, vg: Ordering) {
    forall xv: Ordering, xg: Ordering | Chain(xv, vg, xg) :: held.Apply(xv) ==> goal.Apply(xg)
  }

  lemma {:induction false} ForcesIff(held: CmpOp, goal: CmpOp, vg: Ordering)
    ensures Forces(held, goal, vg, vg.Reverse()) <==> held != Ne && Forced(held, goal, vg)
  {
    assert Chain(Equal, vg, vg);
    assert vg != Greater ==> Chain(Less, vg, Less);
    assert vg != Less ==> Chain(Greater, vg, Greater);
    assert vg == Greater ==> Chain(Less, vg, Less) && Chain(Less, vg, Equal) && Chain(Less, vg, Greater);
    assert vg == Less ==> Chain(Greater, vg, Less) && Chain(Greater, vg, Equal) && Chain(Greater, vg, Greater);
  }

  /** The table is neither too generous nor too cautious: it holds for every bound that the order
      alone forces, but for the one `<>` forces, which it leaves to the equality test. */
  lemma {:induction false} ComparisonImpliesIff(held: CmpOp, v: Value, goal: CmpOp, g: Value)
    ensures ComparisonImplies(held, v, goal, g) <==> held != Ne && Forced(held, goal, Compare(v, g))
  {
    hide Compare;
    CompareFlip(v, g);
    ForcesIff(held, goal, Compare(v, g));
  }

  predicate UnknownOnNull(query: Expr, column: nat) {
    match query
    case CompareTo(c, _, value) => c == column && !value.Null?
    case In(c, _) => c == column
    case LikeText(c, _, _) => c == column
    case TestText(c, test, _) => c == column && !test.Terms?
    case CompareColumns(l, _, r) => l == column || r == column
    case _ => false
  }

  predicate ExcludesNulls(query: Expr, column: nat) {
    match query
    case IsNull(c, true) => c == column
    case Not(inner) => if inner.IsNull? && !inner.negated then inner.column == column else UnknownOnNull(inner, column)
    case _ => UnknownOnNull(query, column)
  }

  /** Whether the goal is that a column has a value, in either spelling, and which. */
  function GoalColumn(goal: Expr): (r: (bool, nat))
    ensures r.0 ==> goal == IsNull(r.1, true) || goal == Not(IsNull(r.1, false))
  {
    match goal
    case IsNull(c, true) => (true, c)
    case Not(inner) => if inner.IsNull? && !inner.negated then (true, inner.column) else (false, 0)
    case _ => (false, 0)
  }

  predicate LeafImplies(query: Expr, goal: Expr) {
    if GoalColumn(goal).0 then ExcludesNulls(query, GoalColumn(goal).1)
    else if !goal.CompareTo? || goal.value.Null? then false
    else match query
         case CompareTo(c, held, v) => c == goal.column && !v.Null? && ComparisonImplies(held, v, goal.op, goal.value)
         case In(c, vs) =>
           c == goal.column && vs != []
           && forall k | 0 <= k < |vs| :: !vs[k].Null? && goal.op.Apply(Compare(vs[k], goal.value))
         case _ => false
  }

  predicate ImpliesOne(query: Expr, goal: Expr)
    decreases query, goal, 0
  {
    || SameExpr(query, goal)
    || goal.Always?
    || (goal.AnyOf? && exists k | 0 <= k < |goal.parts| :: ImpliesOne(query, goal.parts[k]))
    || match query
       case Never => true
       case AllOf(parts) => exists k | 0 <= k < |parts| :: SomeConjunct(parts[k], goal)
       case AnyOf(parts) => parts != [] && forall k | 0 <= k < |parts| :: ImpliesOne(parts[k], goal)
       case _ => LeafImplies(query, goal)
  }

  /** One of the conjuncts of `query` establishes the goal. */
  predicate SomeConjunct(query: Expr, goal: Expr)
    decreases query, goal, 1
  {
    match query
    case Always => false
    case AllOf(parts) => exists k | 0 <= k < |parts| :: SomeConjunct(parts[k], goal)
    case _ => ImpliesOne(query, goal)
  }

  predicate Implies(query: Expr, index: Expr) {
    var goals := Conjuncts(index);
    forall k | 0 <= k < |goals| :: ImpliesOne(query, goals[k])
  }

  // ----- Soundness

  lemma {:induction false} UnknownOnNullIs(query: Expr, column: nat, row: Row, world: World)
    requires UnknownOnNull(query, column) && At(row, column).Null?
    ensures Evaluate(query, row, world) == Unknown
  {
    hide Compare;
  }

  lemma {:induction false} ExcludesNullsSound(query: Expr, column: nat, row: Row, world: World)
    requires ExcludesNulls(query, column) && Admits(query, row, world)
    ensures !At(row, column).Null?
  {
    if At(row, column).Null? {
      match query
      case Not(inner) =>
        assert Evaluate(inner, row, world) == No;
        if !inner.IsNull? { UnknownOnNullIs(inner, column, row, world); }
      case IsNull(_, _) =>
      case _ => UnknownOnNullIs(query, column, row, world);
    }
  }

  lemma {:induction false} ComparisonSound(held: CmpOp, v: Value, goal: CmpOp, g: Value, x: Value)
    requires ComparisonImplies(held, v, goal, g) && held.Apply(Compare(x, v))
    ensures goal.Apply(Compare(x, g))
  {
    ComparisonImpliesIff(held, v, goal, g);
    CompareChain(x, v, g);
    hide Compare, ComparisonImplies;
  }

  lemma {:induction false} LeafSound(query: Expr, goal: Expr, row: Row, world: World)
    requires LeafImplies(query, goal) && Admits(query, row, world)
    ensures Admits(goal, row, world)
  {
    if GoalColumn(goal).0 {
      ExcludesNullsSound(query, GoalColumn(goal).1, row, world);
      if goal.Not? { assert Evaluate(goal.inner, row, world) == No; }
    } else {
      var x := At(row, goal.column);
      match query
      case CompareTo(_, held, v) => ComparisonSound(held, v, goal.op, goal.value, x);
      case In(_, vs) =>
        var k: nat :| k < |vs| && Same(vs[k], x);
        SameInterchange(vs[k], x, goal.value);
        hide Compare;
    }
  }

  /** Every row the query admits meets the goal. */
  lemma {:induction false} ImpliesOneSound(query: Expr, goal: Expr, row: Row, world: World)
    requires ImpliesOne(query, goal) && Admits(query, row, world)
    ensures Admits(goal, row, world)
    decreases query, goal, 0
  {
    if SameExpr(query, goal) {
      SameExprAgree(query, goal, row, world);
    } else if goal.Always? {
    } else if k: nat :| goal.AnyOf? && k < |goal.parts| && ImpliesOne(query, goal.parts[k]) {
      ImpliesOneSound(query, goal.parts[k], row, world);
      AnyAdmits(goal.parts, |goal.parts|, row, world);
    } else {
      match query
      case AllOf(parts) =>
        var k: nat :| k < |parts| && SomeConjunct(parts[k], goal);
        AllAdmit(parts, |parts|, row, world);
        SomeConjunctSound(parts[k], goal, row, world);
      case AnyOf(parts) =>
        AnyAdmits(parts, |parts|, row, world);
        var k: nat :| k < |parts| && Admits(parts[k], row, world);
        ImpliesOneSound(parts[k], goal, row, world);
      case Never =>
      case _ => LeafSound(query, goal, row, world);
    }
  }

  lemma {:induction false} SomeConjunctSound(query: Expr, goal: Expr, row: Row, world: World)
    requires SomeConjunct(query, goal) && Admits(query, row, world)
    ensures Admits(goal, row, world)
    decreases query, goal, 1
  {
    match query
    case AllOf(parts) =>
      var k: nat :| k < |parts| && SomeConjunct(parts[k], goal);
      AllAdmit(parts, |parts|, row, world);
      SomeConjunctSound(parts[k], goal, row, world);
    case Always =>
    case _ => ImpliesOneSound(query, goal, row, world);
  }

  /** `implies`: when it answers yes, every row the query admits is a row the index holds. */
  lemma {:induction false} ImpliesSound(query: Expr, index: Expr, row: Row, world: World)
    requires Implies(query, index) && Admits(query, row, world)
    ensures Admits(index, row, world)
  {
    var goals := Conjuncts(index);
    forall k: nat | k < |goals| ensures Admits(goals[k], row, world) {
      ImpliesOneSound(query, goals[k], row, world);
    }
    hide Admits, ImpliesOne, Conjuncts;
    ConjunctsHold(index, row, world);
  }
}
