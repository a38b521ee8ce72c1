/** The laws of three-valued logic: what a null anywhere in a predicate does to its answer. */
module ThreeValued {
  import opened Values
  import opened ValueOrder
  import opened Exprs
  import LikePatterns

  // ----- Conjunction, disjunction, negation

  /** One part in `n` answers `truth`. */
  ghost predicate SomeAnswers(parts: seq<Expr>, n: nat, row: Row, world: World, truth: Truth)
    requires n <= |parts|
  {
    exists k | 0 <= k < n :: Evaluate(parts[k], row, world) == truth
  }

  lemma {:induction false} SomeAnswersStep(parts: seq<Expr>, n: nat, row: Row, world: World, truth: Truth)
    requires 0 < n <= |parts|
    ensures SomeAnswers(parts, n, row, world, truth) <==>
            SomeAnswers(parts, n - 1, row, world, truth) || Evaluate(parts[n - 1], row, world) == truth
  {
    hide Evaluate;
  }

  /** A conjunction is false if any part is; failing that it is unknown if any part is. */
  lemma {:induction false} AllAnswers(parts: seq<Expr>, n: nat, row: Row, world: World)
    requires n <= |parts|
    ensures EvaluateAll(parts, n, row, world)
         == if SomeAnswers(parts, n, row, world, No) then No
            else if SomeAnswers(parts, n, row, world, Unknown) then Unknown
            else Yes
  {
    hide Evaluate, SomeAnswers;
    if n > 0 {
      AllAnswers(parts, n - 1, row, world);
      SomeAnswersStep(parts, n, row, world, No);
      SomeAnswersStep(parts, n, row, world, Unknown);
    } else {
      NoneAnswers(parts, row, world);
    }
  }

  /** A disjunction is true if any part is; failing that it is unknown if any part is. */
  lemma {:induction false} AnyAnswers(parts: seq<Expr>, n: nat, row: Row, world: World)
    requires n <= |parts|
    ensures EvaluateAny(parts, n, row, world)
         == if SomeAnswers(parts, n, row, world, Yes) then Yes
            else if SomeAnswers(parts, n, row, world, Unknown) then Unknown
            else No
  {
    hide Evaluate, SomeAnswers;
    if n > 0 {
      AnyAnswers(parts, n - 1, row, world);
      SomeAnswersStep(parts, n, row, world, Yes);
      SomeAnswersStep(parts, n, row, world, Unknown);
    } else {
      NoneAnswers(parts, row, world);
    }
  }

  lemma {:induction false} NoneAnswers(parts: seq<Expr>, row: Row, world: World)
    ensures forall truth :: !SomeAnswers(parts, 0, row, world, truth)
  {
  }

  function Negations(parts: seq<Expr>, n: nat): (r: seq<Expr>)
    requires n <= |parts|
    ensures |r| == n && forall k | 0 <= k < n :: r[k] == Not(parts[k])
  {
    if n == 0 then [] else Negations(parts, n - 1) + [Not(parts[n - 1])]
  }

  lemma {:induction false} NegationAnswers(parts: seq<Expr>, row: Row, world: World, truth: Truth)
    ensures SomeAnswers(Negations(parts, |parts|), |parts|, row, world, truth.Negate())
       <==> SomeAnswers(parts, |parts|, row, world, truth)
  {
    var not := Negations(parts, |parts|);
    forall k: nat | k < |parts| ensures Evaluate(not[k], row, world) == Evaluate(parts[k], row, world).Negate() {
      assert not[k] == Not(parts[k]);
    }
    hide Evaluate;
    if SomeAnswers(parts, |parts|, row, world, truth) {
      var k: nat :| k < |parts| && Evaluate(parts[k], row, world) == truth;
      assert Evaluate(not[k], row, world) == truth.Negate();
    }
  }

  /** What a negation answers, and De Morgan's laws, for every mixture of answers. */
  lemma {:induction false} DeMorgan(parts: seq<Expr>, row: Row, world: World)
    ensures Evaluate(Not(AllOf(parts)), row, world) == Evaluate(AnyOf(Negations(parts, |parts|)), row, world)
    ensures Evaluate(Not(AnyOf(parts)), row, world) == Evaluate(AllOf(Negations(parts, |parts|)), row, world)
    ensures Evaluate(Not(AllOf(parts)), row, world) == Yes <==> SomeAnswers(parts, |parts|, row, world, No)
  {
    var not := Negations(parts, |parts|);
    AllAnswers(parts, |parts|, row, world);
    AnyAnswers(parts, |parts|, row, world);
    AllAnswers(not, |not|, row, world);
    AnyAnswers(not, |not|, row, world);
    NegationAnswers(parts, row, world, Yes);
    NegationAnswers(parts, row, world, No);
    NegationAnswers(parts, row, world, Unknown);
    assert Evaluate(Not(AllOf(parts)), row, world) == EvaluateAll(parts, |parts|, row, world).Negate();
    assert Evaluate(Not(AnyOf(parts)), row, world) == EvaluateAny(parts, |parts|, row, world).Negate();
    assert Evaluate(AnyOf(not), row, world) == EvaluateAny(not, |not|, row, world);
    assert Evaluate(AllOf(not), row, world) == EvaluateAll(not, |not|, row, world);
    hide Evaluate, EvaluateAll, EvaluateAny, SomeAnswers;
  }

  /** Two negations cancel, `Unknown` included. */
  lemma {:induction false} NotNot(e: Expr, row: Row, world: World)
    ensures Evaluate(Not(Not(e)), row, world) == Evaluate(e, row, world)
    ensures Evaluate(Not(e), row, world) == Yes <==> Evaluate(e, row, world) == No
    ensures Evaluate(Not(e), row, world) == Unknown <==> Evaluate(e, row, world) == Unknown
  {
    assert Evaluate(Not(Not(e)), row, world) == Evaluate(Not(e), row, world).Negate();
    assert Evaluate(Not(e), row, world) == Evaluate(e, row, world).Negate();
  }

  /** The loop of `And`: it stops at the first part that is false. */
  method Conjoin(parts: seq<Expr>, row: Row, world: World) returns (r: Truth)
    ensures r == Evaluate(AllOf(parts), row, world)
  {
    hide Evaluate;
    r := Yes;
    for n := 0 to |parts|
      invariant r == EvaluateAll(parts, n, row, world) && r != No
    {
      match Evaluate(parts[n], row, world) {
        case No =>
          FalseStays(parts, n + 1, |parts|, row, world);
          AllIsAll(parts, row, world);
          return No;
        case Unknown => r := Unknown;
        case Yes =>
      }
    }
    AllIsAll(parts, row, world);
  }

  /** The loop of `Or`: it stops at the first part that is true. */
  method Disjoin(parts: seq<Expr>, row: Row, world: World) returns (r: Truth)
    ensures r == Evaluate(AnyOf(parts), row, world)
  {
    hide Evaluate;
    r := No;
    for n := 0 to |parts|
      invariant r == EvaluateAny(parts, n, row, world) && r != Yes
    {
      match Evaluate(parts[n], row, world) {
        case Yes =>
          TrueStays(parts, n + 1, |parts|, row, world);
          AnyIsAny(parts, row, world);
          return Yes;
        case Unknown => r := Unknown;
        case No =>
      }
    }
    AnyIsAny(parts, row, world);
  }

  lemma {:induction false} AllIsAll(parts: seq<Expr>, row: Row, world: World)
    ensures Evaluate(AllOf(parts), row, world) == EvaluateAll(parts, |parts|, row, world)
  {
  }

  lemma {:induction false} AnyIsAny(parts: seq<Expr>, row: Row, world: World)
    ensures Evaluate(AnyOf(parts), row, world) == EvaluateAny(parts, |parts|, row, world)
  {
  }

  lemma {:induction false} FalseStays(parts: seq<Expr>, n: nat, m: nat, row: Row, world: World)
    requires n <= m <= |parts| && EvaluateAll(parts, n, row, world) == No
    ensures EvaluateAll(parts, m, row, world) == No
  {
    hide Evaluate;
    if n < m { FalseStays(parts, n, m - 1, row, world); }
  }

  lemma {:induction false} TrueStays(parts: seq<Expr>, n: nat, m: nat, row: Row, world: World)
    requires n <= m <= |parts| && EvaluateAny(parts, n, row, world) == Yes
    ensures EvaluateAny(parts, m, row, world) == Yes
  {
    hide Evaluate;
    if n < m { TrueStays(parts, n, m - 1, row, world); }
  }

  // ----- Comparisons

  /** The operator that holds just where this one does not. */
  function Opposite(op: CmpOp): CmpOp {
    match op
    case Eq => Ne
    case Ne => Eq
    case Lt => Ge
    case Ge => Lt
    case Gt => Le
    case Le => Gt
  }

  /** Negating a comparison is comparing the opposite way, a null leaving either open; two columns
      may be compared from either side; and `<=` and `>=` are what their signs say. */
  lemma {:induction false} ComparisonLaws(c: nat, d: nat, op: CmpOp, value: Value, row: Row, world: World)
    ensures Evaluate(Not(CompareTo(c, op, value)), row, world) == Evaluate(CompareTo(c, Opposite(op), value), row, world)
    ensures Evaluate(CompareColumns(c, op, d), row, world) == Evaluate(CompareColumns(d, op.Mirrored(), c), row, world)
    ensures Evaluate(CompareTo(c, op, value), row, world) == Unknown <==> At(row, c).Null? || value.Null?
    ensures Evaluate(AnyOf([CompareTo(c, Lt, value), CompareTo(c, Eq, value)]), row, world) == Evaluate(CompareTo(c, Le, value), row, world)
    ensures Evaluate(AnyOf([CompareTo(c, Gt, value), CompareTo(c, Eq, value)]), row, world) == Evaluate(CompareTo(c, Ge, value), row, world)
    ensures !(Admits(CompareTo(c, Lt, value), row, world) && Admits(CompareTo(c, Gt, value), row, world))
  {
    CompareFlip(At(row, c), At(row, d));
    hide Compare;
    TwoParts(CompareTo(c, Lt, value), CompareTo(c, Eq, value), row, world);
    TwoParts(CompareTo(c, Gt, value), CompareTo(c, Eq, value), row, world);
  }

  lemma {:induction false} TwoParts(a: Expr, b: Expr, row: Row, world: World)
    ensures Evaluate(AnyOf([a, b]), row, world) == Evaluate(a, row, world).Or(Evaluate(b, row, world))
  {
    AnyIsAny([a, b], row, world);
    hide Evaluate;
    assert EvaluateAny([a, b], 0, row, world) == No;
    assert EvaluateAny([a, b], 1, row, world) == No.Or(Evaluate(a, row, world));
  }

  /** A test of a null, or of what is no text, is neither passed nor failed; only `IS NULL` is. */
  lemma {:induction false} NullIsUnknown(c: nat, pattern: seq<LikePatterns.Char>, test: TextTest, argument: nat, values: seq<Value>, any: bool, row: Row, world: World)
    requires At(row, c).Null?
    ensures Evaluate(LikeText(c, pattern, any), row, world) == Unknown
    ensures Evaluate(TestText(c, test, argument), row, world) == Unknown
    ensures Evaluate(In(c, values), row, world) == Unknown
    ensures Evaluate(InSorted(c, values, any), row, world) == Unknown
    ensures Evaluate(IsNull(c, any), row, world) == if any then No else Yes
  {
  }

  /** `NOT LIKE` and `IS NOT NULL` are the negations. */
  lemma {:induction false} NegatedTests(c: nat, pattern: seq<LikePatterns.Char>, row: Row, world: World)
    ensures Evaluate(LikeText(c, pattern, true), row, world) == Evaluate(Not(LikeText(c, pattern, false)), row, world)
    ensures Evaluate(IsNull(c, true), row, world) == Evaluate(Not(IsNull(c, false)), row, world)
  {
  }

  // ----- IN

  function Equations(c: nat, values: seq<Value>, n: nat): (r: seq<Expr>)
    requires n <= |values|
    ensures |r| == n && forall k | 0 <= k < n :: r[k] == CompareTo(c, Eq, values[k])
  {
    if n == 0 then [] else Equations(c, values, n - 1) + [CompareTo(c, Eq, values[n - 1])]
  }

  /** What one equation answers. */
  lemma {:induction false} EquationAnswers(c: nat, value: Value, row: Row, world: World)
    ensures var truth, v := Evaluate(CompareTo(c, Eq, value), row, world), At(row, c);
            && (truth == Unknown <==> v.Null? || value.Null?)
            && (truth == Yes <==> !v.Null? && !value.Null? && Same(value, v))
  {
    CompareFlip(value, At(row, c));
    hide Compare;
  }

  /** `IN` is a disjunction of equations, a null among the candidates included; but an empty list
      leaves a null open where an empty disjunction is false. */
  lemma {:induction false} InIsAny(c: nat, values: seq<Value>, row: Row, world: World)
    ensures Evaluate(In(c, values), row, world) == Evaluate(AnyOf(Equations(c, values, |values|)), row, world)
       <==> !(values == [] && At(row, c).Null?)
    ensures Evaluate(Not(In(c, values)), row, world) == Yes
       <==> !At(row, c).Null? && forall k | 0 <= k < |values| :: !values[k].Null? && !Same(values[k], At(row, c))
  {
    var es, v := Equations(c, values, |values|), At(row, c);
    forall k: nat | k < |values|
      ensures Evaluate(es[k], row, world) == Unknown <==> v.Null? || values[k].Null?
      ensures Evaluate(es[k], row, world) == Yes <==> !v.Null? && !values[k].Null? && Same(values[k], v)
    {
      assert es[k] == CompareTo(c, Eq, values[k]);
      EquationAnswers(c, values[k], row, world);
    }
    AnyAnswers(es, |es|, row, world);
    AnyIsAny(es, row, world);
    assert Evaluate(In(c, values), row, world) == Member(v, AnySame(values, v), AnyNull(values));
    NotNot(In(c, values), row, world);
    hide Evaluate, EvaluateAny, Same;
    if v.Null? && values != [] { assert Evaluate(es[0], row, world) == Unknown; }
    if AnySame(values, v) && !v.Null? {
      var k: nat :| k < |values| && !values[k].Null? && Same(values[k], v);
      assert Evaluate(es[k], row, world) == Yes;
    }
    if AnyNull(values) {
      var k: nat :| k < |values| && values[k].Null?;
      assert Evaluate(es[k], row, world) == Unknown;
    }
  }
}
