/** Predicates over rows, under three-valued logic, and the form prepared for repeated use. */
module Exprs {
  import opened ByteStrings
  import opened Values
  import opened ValueOrder
  import opened LikePatterns

  /** Only `Yes` admits a row; a null anywhere makes a comparison `Unknown`. */
  datatype Truth = Yes | No | Unknown {
    function Negate(): Truth { match this case Yes => No case No => Yes case Unknown => Unknown }

    function And(other: Truth): Truth {
      if No? || other.No? then No else if Unknown? || other.Unknown? then Unknown else Yes
    }

    function Or(other: Truth): Truth {
      if Yes? || other.Yes? then Yes else if Unknown? || other.Unknown? then Unknown else No
    }
  }

  function ToTruth(b: bool): Truth { if b then Yes else No }

  datatype CmpOp = Eq | Ne | Lt | Le | Gt | Ge {
    predicate Apply(o: Ordering) {
      match this
      case Eq => o == Equal
      case Ne => o != Equal
      case Lt => o == Less
      case Le => o != Greater
      case Gt => o == Greater
      case Ge => o != Less
    }

    /** The same condition where the order is reversed. */
    function Mirrored(): CmpOp {
      match this
      case Eq => Eq
      case Ne => Ne
      case Lt => Gt
      case Le => Ge
      case Gt => Lt
      case Ge => Le
    }
  }

  /** The tests of a text whose inner workings are not part of this model. */
  datatype TextTest = CaseBlindLike | Regex | Terms

  datatype Expr =
    | Always
    | Never
    | CompareTo(column: nat, op: CmpOp, value: Value)
    | CompareColumns(left: nat, op: CmpOp, right: nat)
    | IsNull(column: nat, negated: bool)
    | LikeText(column: nat, pattern: seq<Char>, negated: bool)
    | TestText(column: nat, test: TextTest, argument: nat)
    | In(column: nat, values: seq<Value>)
    | InSorted(column: nat, values: seq<Value>, anyNull: bool)
    | AllOf(parts: seq<Expr>)
    | AnyOf(parts: seq<Expr>)
    | Not(inner: Expr)

  type Row = seq<Value>

  /** Which texts pass which test. */
  type World = iset<(TextTest, nat, Utf8)>

  /** A column past the row's end reads as null does everywhere. */
  function At(row: Row, column: nat): Value { if column < |row| then row[column] else Null }

  predicate AnySame(values: seq<Value>, v: Value) { exists k | 0 <= k < |values| :: !values[k].Null? && Same(values[k], v) }

  predicate AnyNull(values: seq<Value>) { exists k | 0 <= k < |values| :: values[k].Null? }

  /** `slice::binary_search`, as to whether it finds anything. */
  predicate Searched(values: seq<Value>, v: Value, lo: nat, hi: nat)
    requires lo <= hi <= |values|
    decreases hi - lo
  {
    lo < hi &&
    var mid := lo + (hi - lo) / 2;
    match Compare(values[mid], v)
    case Equal => true
    case Less => Searched(values, v, mid + 1, hi)
    case Greater => Searched(values, v, lo, mid)
  }

  function CompareValues(v: Value, op: CmpOp, w: Value): Truth {
    if v.Null? || w.Null? then Unknown else ToTruth(op.Apply(Compare(v, w)))
  }

  /** What `IN` answers, once it is known whether a candidate equals the value. */
  function Member(v: Value, found: bool, anyNull: bool): Truth {
    if v.Null? then Unknown else if found then Yes else if anyNull then Unknown else No
  }

  /** `evaluate_over`. */
  function Evaluate(e: Expr, row: Row, world: World): Truth {
    match e
    case Always => Yes
    case Never => No
    case CompareTo(c, op, value) => CompareValues(At(row, c), op, value)
    case CompareColumns(l, op, r) => CompareValues(At(row, l), op, At(row, r))
    case IsNull(c, negated) => ToTruth(At(row, c).Null? != negated)
    case LikeText(c, pattern, negated) =>
      var v := At(row, c);
      if v.Str? then ToTruth(LikePatterns.Like(Chars(v.text), 0, pattern, 0) != negated) else Unknown
    case TestText(c, test, argument) =>
      var v := At(row, c);
      if v.Str? then ToTruth((test, argument, v.text) in world) else Unknown
    case In(c, values) => var v := At(row, c); Member(v, AnySame(values, v), AnyNull(values))
    case InSorted(c, values, anyNull) =>
      var v := At(row, c);
      Member(v, Searched(values, v, 0, |values|), anyNull)
    case AllOf(parts) => EvaluateAll(parts, |parts|, row, world)
    case AnyOf(parts) => EvaluateAny(parts, |parts|, row, world)
    case Not(inner) => Evaluate(inner, row, world).Negate()
  }

  function EvaluateAll(parts: seq<Expr>, n: nat, row: Row, world: World): Truth
    requires n <= |parts|
    decreases parts, n
  {
    if n == 0 then Yes else EvaluateAll(parts, n - 1, row, world).And(Evaluate(parts[n - 1], row, world))
  }

  function EvaluateAny(parts: seq<Expr>, n: nat, row: Row, world: World): Truth
    requires n <= |parts|
    decreases parts, n
  {
    if n == 0 then No else EvaluateAny(parts, n - 1, row, world).Or(Evaluate(parts[n - 1], row, world))
  }

  predicate Admits(e: Expr, row: Row, world: World) { Evaluate(e, row, world) == Yes }

  lemma {:induction false} AllAdmit(parts: seq<Expr>, n: nat, row: Row, world: World)
    requires n <= |parts|
    ensures EvaluateAll(parts, n, row, world) == Yes <==> forall k | 0 <= k < n :: Admits(parts[k], row, world)
  {
    if n > 0 {
      AllAdmit(parts, n - 1, row, world);
      hide Evaluate;
    }
  }

  lemma {:induction false} AnyAdmits(parts: seq<Expr>, n: nat, row: Row, world: World)
    requires n <= |parts|
    ensures EvaluateAny(parts, n, row, world) == Yes <==> exists k | 0 <= k < n :: Admits(parts[k], row, world)
  {
    if n > 0 {
      AnyAdmits(parts, n - 1, row, world);
      hide Evaluate;
    }
  }

  // ----- Sorted lists

  ghost predicate AllAbove(v: Value, s: seq<Value>) { forall k | 0 <= k < |s| :: Compare(v, s[k]) == Less }

  ghost predicate Sorted(s: seq<Value>) { s == [] || (AllAbove(s[0], s[1..]) && Sorted(s[1..])) }

  lemma {:induction false} SortedAt(s: seq<Value>, i: nat, j: nat)
    requires Sorted(s) && i < j < |s|
    ensures Compare(s[i], s[j]) == Less
  {
    hide Compare;
    if i > 0 { SortedAt(s[1..], i - 1, j - 1); } else { assert s[1..][j - 1] == s[j]; }
  }

  /** `sort` and `dedup`, one value at a time. */
  function Insert(v: Value, s: seq<Value>): seq<Value> {
    if s == [] then [v]
    else match Compare(v, s[0])
         case Less => [v] + s
         case Equal => s
         case Greater => [s[0]] + Insert(v, s[1..])
  }

  /** The values that are not null, in order, each once. */
  function Distinct(values: seq<Value>, n: nat): seq<Value>
    requires n <= |values|
  {
    if n == 0 then []
    else if values[n - 1].Null? then Distinct(values, n - 1)
    else Insert(values[n - 1], Distinct(values, n - 1))
  }

  /** Some element compares equal. */
  ghost predicate Holds(s: seq<Value>, w: Value) { exists k | 0 <= k < |s| :: Same(s[k], w) }

  lemma {:induction false} HoldsCons(s: seq<Value>, w: Value)
    requires s != []
    ensures Holds(s, w) <==> Same(s[0], w) || Holds(s[1..], w)
  {
    hide Same;
    if Holds(s, w) {
      var k: nat :| k < |s| && Same(s[k], w);
      if k > 0 { assert s[1..][k - 1] == s[k]; }
    }
    if Holds(s[1..], w) {
      var k: nat :| k < |s[1..]| && Same(s[1..][k], w);
      assert s[k + 1] == s[1..][k];
    }
  }

  lemma {:induction false} InsertHolds(v: Value, s: seq<Value>, w: Value)
    ensures Holds(Insert(v, s), w) <==> Same(v, w) || Holds(s, w)
  {
    hide Compare;
    HoldsCons(Insert(v, s), w);
    if s != [] {
      HoldsCons(s, w);
      match Compare(v, s[0])
      case Less => assert ([v] + s)[1..] == s;
      case Equal => CompareChain(v, s[0], w); CompareFlip(v, s[0]);
      case Greater =>
        assert Insert(v, s)[1..] == Insert(v, s[1..]);
        InsertHolds(v, s[1..], w);
    } else {
      assert [v][1..] == [];
    }
  }

  lemma {:induction false} InsertAbove(u: Value, v: Value, s: seq<Value>)
    requires AllAbove(u, s) && Compare(u, v) == Less
    ensures AllAbove(u, Insert(v, s))
  {
    hide Compare;
    if s != [] && Compare(v, s[0]) == Greater {
      assert s[0] == s[..][0];
      InsertAbove(u, v, s[1..]);
    }
  }

  lemma {:induction false} InsertSorted(v: Value, s: seq<Value>)
    requires Sorted(s)
    ensures Sorted(Insert(v, s))
  {
    hide Compare;
    if s != [] {
      match Compare(v, s[0])
      case Less =>
        assert ([v] + s)[1..] == s;
        forall k | 0 <= k < |s| ensures Compare(v, s[k]) == Less {
          if k > 0 { SortedAt(s, 0, k); CompareChain(v, s[0], s[k]); }
        }
      case Equal =>
      case Greater =>
        CompareFlip(v, s[0]);
        InsertSorted(v, s[1..]);
        InsertAbove(s[0], v, s[1..]);
        assert Insert(v, s)[1..] == Insert(v, s[1..]);
    } else {
      assert [v][1..] == [];
    }
  }

  lemma {:induction false} DistinctSorted(values: seq<Value>, n: nat)
    requires n <= |values|
    ensures Sorted(Distinct(values, n))
  {
    if n > 0 {
      DistinctSorted(values, n - 1);
      hide Sorted, Insert;
      if !values[n - 1].Null? { InsertSorted(values[n - 1], Distinct(values, n - 1)); }
    }
  }

  /** One of the first `n` is not null and compares equal. */
  predicate SameBefore(values: seq<Value>, n: nat, w: Value)
    requires n <= |values|
  {
    n > 0 && ((!values[n - 1].Null? && Same(values[n - 1], w)) || SameBefore(values, n - 1, w))
  }

  lemma {:induction false} SameBeforeIff(values: seq<Value>, n: nat, w: Value)
    requires n <= |values|
    ensures SameBefore(values, n, w) <==> exists k | 0 <= k < n :: !values[k].Null? && Same(values[k], w)
  {
    hide Same;
    if n > 0 { SameBeforeIff(values, n - 1, w); }
  }

  lemma {:induction false} DistinctHolds(values: seq<Value>, n: nat, w: Value)
    requires n <= |values|
    ensures Holds(Distinct(values, n), w) <==> SameBefore(values, n, w)
  {
    hide Insert, Same;
    if n > 0 {
      DistinctHolds(values, n - 1, w);
      hide Holds;
      if !values[n - 1].Null? { InsertHolds(values[n - 1], Distinct(values, n - 1), w); }
    }
  }

  /** In a sorted list the binary search finds exactly what a scan would. */
  lemma {:induction false} SearchedIff(values: seq<Value>, v: Value, lo: nat, hi: nat)
    requires Sorted(values) && lo <= hi <= |values|
    ensures Searched(values, v, lo, hi) <==> exists k | lo <= k < hi :: Same(values[k], v)
    decreases hi - lo
  {
    hide Compare, Sorted;
    if lo < hi {
      var mid := lo + (hi - lo) / 2;
      SearchedIff(values, v, mid + 1, hi);
      SearchedIff(values, v, lo, mid);
      forall k | lo <= k < hi ensures k < mid && Compare(values[mid], v) == Less ==> !Same(values[k], v)
                              ensures k > mid && Compare(values[mid], v) == Greater ==> !Same(values[k], v)
      {
        if k < mid {
          SortedAt(values, k, mid);
          CompareChain(values[k], values[mid], v);
        } else if k > mid {
          SortedAt(values, mid, k);
          CompareFlip(values[mid], values[k]);
          CompareChain(values[k], values[mid], v);
        }
      }
    }
  }

  // ----- The prepared form

  const IN_LOOKUP_THRESHOLD: nat := 16

  function Prepared(e: Expr): Expr {
    match e
    case In(c, values) =>
      if |values| >= IN_LOOKUP_THRESHOLD then InSorted(c, Distinct(values, |values|), AnyNull(values)) else e
    case AllOf(parts) => AllOf(PreparedEach(parts, |parts|))
    case AnyOf(parts) => AnyOf(PreparedEach(parts, |parts|))
    case Not(inner) => Not(Prepared(inner))
    case _ => e
  }

  function PreparedEach(parts: seq<Expr>, n: nat): (r: seq<Expr>)
    requires n <= |parts|
    ensures |r| == n
    decreases parts, n
  {
    if n == 0 then [] else PreparedEach(parts, n - 1) + [Prepared(parts[n - 1])]
  }

  lemma {:induction false} PreparedIn(values: seq<Value>, v: Value)
    ensures Searched(Distinct(values, |values|), v, 0, |Distinct(values, |values|)|) <==> AnySame(values, v)
  {
    DistinctSorted(values, |values|);
    DistinctHolds(values, |values|, v);
    SameBeforeIff(values, |values|, v);
    SearchedIff(Distinct(values, |values|), v, 0, |Distinct(values, |values|)|);
    hide Distinct, Searched, Same;
  }

  /** Preparing a predicate changes nothing it answers: not one row, and not `Unknown` to `No`. */
  lemma {:induction false} PreparedSame(e: Expr, row: Row, world: World)
    ensures Evaluate(Prepared(e), row, world) == Evaluate(e, row, world)
    decreases e, 1
  {
    match e
    case In(c, values) =>
      if |values| >= IN_LOOKUP_THRESHOLD { PreparedIn(values, At(row, c)); }
      hide Distinct, Searched, Same;
    case AllOf(parts) => PreparedEachSame(parts, |parts|, row, world);
    case AnyOf(parts) => PreparedEachSame(parts, |parts|, row, world);
    case Not(inner) => PreparedSame(inner, row, world);
    case _ =>
  }

  lemma {:induction false} PreparedEachSame(parts: seq<Expr>, n: nat, row: Row, world: World)
    requires n <= |parts|
    ensures EvaluateAll(PreparedEach(parts, n), n, row, world) == EvaluateAll(parts, n, row, world)
    ensures EvaluateAny(PreparedEach(parts, n), n, row, world) == EvaluateAny(parts, n, row, world)
    decreases parts, 0, n
  {
    if n > 0 {
      PreparedSame(parts[n - 1], row, world);
      PreparedEachSame(parts, n - 1, row, world);
      hide Evaluate, Prepared;
      var done := PreparedEach(parts, n - 1);
      EvaluatePrefix(done, [Prepared(parts[n - 1])], n - 1, row, world);
    }
  }

  lemma {:induction false} EvaluatePrefix(a: seq<Expr>, b: seq<Expr>, n: nat, row: Row, world: World)
    requires n <= |a|
    ensures EvaluateAll(a + b, n, row, world) == EvaluateAll(a, n, row, world)
    ensures EvaluateAny(a + b, n, row, world) == EvaluateAny(a, n, row, world)
  {
    hide Evaluate;
    if n > 0 { EvaluatePrefix(a, b, n - 1, row, world); }
  }
}
