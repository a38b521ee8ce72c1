/** From predicates to scan bounds: what a range derived from a predicate holds. */
module Bounds {
  import opened Options
  import opened ByteStrings
  import opened Values
  import opened ValueOrder
  import opened Encoding
  import opened Tuples
  import Ranges
  import opened KeyRanges
  import opened Exprs
  import opened Implication
  import LikePatterns

  datatype RangeTerm = RangeTerm(op: CmpOp, value: Value)

  /** What a predicate says about one column. */
  datatype Constraint = Constraint(
    equals: Option<Value>, ranges: seq<RangeTerm>, anyOf: Option<seq<Value>>, startsWith: Option<Utf8>)

  const NONE_SAID: Constraint := Constraint(None, [], None, None)

  type Constraints = map<nat, Constraint>

  function For(cs: Constraints, column: nat): Constraint { if column in cs then cs[column] else NONE_SAID }

  predicate IsBound(op: CmpOp) { op.Lt? || op.Le? || op.Gt? || op.Ge? }

  // ----- Collecting

  /** What one conjunct adds. */
  function Add(cs: Constraints, e: Expr): Constraints {
    match e
    case CompareTo(c, op, value) =>
      if value.Null? then cs
      else if op.Eq? then cs[c := For(cs, c).(equals := Some(value))]
      else if IsBound(op) then cs[c := For(cs, c).(ranges := For(cs, c).ranges + [RangeTerm(op, value)])]
      else cs[c := For(cs, c)]
    case LikeText(c, pattern, false) =>
      var literal := LikePatterns.Literal(pattern, 0);
      if literal == [] then cs
      else if For(cs, c).startsWith.Some? then cs
      else cs[c := For(cs, c).(startsWith := Some(LikePatterns.Spelled(literal)))]
    case In(c, values) =>
      if values == [] || For(cs, c).anyOf.Some? then cs else cs[c := For(cs, c).(anyOf := Some(values))]
    case IsNull(c, false) => cs[c := For(cs, c).(equals := Some(Null))]
    case _ => cs
  }

  function Collected(conjuncts: seq<Expr>, n: nat): Constraints
    requires n <= |conjuncts|
  {
    if n == 0 then map[] else Add(Collected(conjuncts, n - 1), conjuncts[n - 1])
  }

  /** `collect_constraints`. */
  method CollectConstraints(conjuncts: seq<Expr>) returns (cs: Constraints)
    ensures cs == Collected(conjuncts, |conjuncts|)
  {
    hide LikePatterns.Literal, LikePatterns.Spelled;
    cs := map[];
    for n := 0 to |conjuncts|
      invariant cs == Collected(conjuncts, n)
    {
      match conjuncts[n]
      case CompareTo(c, op, value) =>
        if !value.Null? {
          var entry := For(cs, c);
          match op {
            case Eq => entry := entry.(equals := Some(value));
            case Ne =>
            case _ => entry := entry.(ranges := entry.ranges + [RangeTerm(op, value)]);
          }
          cs := cs[c := entry];
        }
      case LikeText(c, pattern, negated) =>
        if !negated {
          var prefix := LikePatterns.LikePrefix(pattern);
          if prefix.Some? && For(cs, c).startsWith.None? {
            cs := cs[c := For(cs, c).(startsWith := Some(LikePatterns.Spelled(prefix.value)))];
          }
        }
      case In(c, values) =>
        if values != [] && For(cs, c).anyOf.None? {
          cs := cs[c := For(cs, c).(anyOf := Some(values))];
        }
      case IsNull(c, negated) =>
        if !negated { cs := cs[c := For(cs, c).(equals := Some(Null))]; }
      case _ =>
    }
  }

  predicate MeetsRanges(ranges: seq<RangeTerm>, n: nat, v: Value)
    requires n <= |ranges|
  {
    n == 0 || (MeetsRanges(ranges, n - 1, v) && ranges[n - 1].op.Apply(Compare(v, ranges[n - 1].value)))
  }

  ghost predicate AllBounds(ranges: seq<RangeTerm>) { forall k | 0 <= k < |ranges| :: IsBound(ranges[k].op) }

  /** The value is one the constraint allows, and the constraint is one the collector makes. */
  ghost predicate Meets(c: Constraint, v: Value) {
    && (c.equals.Some? ==> Same(v, c.equals.value))
    && AllBounds(c.ranges) && MeetsRanges(c.ranges, |c.ranges|, v)
    && (c.anyOf.Some? ==> AnySame(c.anyOf.value, v))
    && (c.startsWith.Some? ==> v.Str? && IsPrefix(c.startsWith.value, v.text))
  }

  ghost predicate MeetsAll(cs: Constraints, row: Row) { forall c: nat :: Meets(For(cs, c), At(row, c)) }

  lemma {:induction false} MeetsRangesPrefix(a: seq<RangeTerm>, b: seq<RangeTerm>, n: nat, v: Value)
    requires n <= |a|
    ensures MeetsRanges(a + b, n, v) == MeetsRanges(a, n, v)
  {
    hide Compare;
    if n > 0 { MeetsRangesPrefix(a, b, n - 1, v); }
  }

  lemma {:induction false} AddComparison(cs: Constraints, c: nat, op: CmpOp, value: Value, row: Row, world: World)
    requires MeetsAll(cs, row) && Admits(CompareTo(c, op, value), row, world)
    ensures Meets(For(Add(cs, CompareTo(c, op, value)), c), At(row, c))
  {
    var now := For(cs, c);
    var v := At(row, c);
    assert Meets(now, v);
    if IsBound(op) {
      MeetsRangesPrefix(now.ranges, [RangeTerm(op, value)], |now.ranges|, v);
    }
    hide Compare;
  }

  lemma {:induction false} AddLike(cs: Constraints, c: nat, pattern: seq<LikePatterns.Char>, row: Row, world: World)
    requires MeetsAll(cs, row) && Admits(LikeText(c, pattern, false), row, world)
    ensures Meets(For(Add(cs, LikeText(c, pattern, false)), c), At(row, c))
  {
    assert Meets(For(cs, c), At(row, c));
    var v := At(row, c);
    LikePatterns.LiteralOpensBytes(v.text, pattern);
    hide Compare, MeetsRanges, LikePatterns.Literal, LikePatterns.Spelled;
  }

  /** One more conjunct that admits the row says nothing false about it. */
  lemma {:induction false} AddSound(cs: Constraints, e: Expr, row: Row, world: World)
    requires MeetsAll(cs, row) && Admits(e, row, world)
    ensures MeetsAll(Add(cs, e), row)
  {
    forall c: nat ensures Meets(For(Add(cs, e), c), At(row, c)) {
      assert Meets(For(cs, c), At(row, c));
      if e.CompareTo? && e.column == c {
        AddComparison(cs, c, e.op, e.value, row, world);
      } else if e.LikeText? && e.column == c && !e.negated {
        AddLike(cs, c, e.pattern, row, world);
      }
      hide Compare, MeetsRanges, LikePatterns.Literal, LikePatterns.Spelled, LikePatterns.Like;
    }
  }

  lemma {:induction false} CollectedHold(conjuncts: seq<Expr>, n: nat, row: Row, world: World)
    requires n <= |conjuncts| && AllHold(conjuncts, row, world)
    ensures MeetsAll(Collected(conjuncts, n), row)
  {
    hide Add, Compare, Admits;
    if n > 0 {
      CollectedHold(conjuncts, n - 1, row, world);
      assert conjuncts[n - 1] in conjuncts;
      hide MeetsAll;
      AddSound(Collected(conjuncts, n - 1), conjuncts[n - 1], row, world);
    }
  }

  function ConstraintsOf(e: Expr): Constraints {
    var conjuncts := Conjuncts(e); Collected(conjuncts, |conjuncts|)
  }

  /** A row the predicate admits meets every constraint taken from it. */
  lemma {:induction false} AdmittedMeets(e: Expr, row: Row, world: World)
    requires Admits(e, row, world)
    ensures MeetsAll(ConstraintsOf(e), row)
  {
    hide Admits;
    ConjunctsHold(e, row, world);
    CollectedHold(Conjuncts(e), |Conjuncts(e)|, row, world);
  }

  // ----- Nothing is left out

  /** The conjunct says what the column equals. */
  predicate SaysEqual(e: Expr, column: nat) {
    (e.CompareTo? && e.op.Eq? && !e.value.Null? && e.column == column) || (e.IsNull? && !e.negated && e.column == column)
  }

  predicate SaysIn(e: Expr, column: nat) { e.In? && e.values != [] && e.column == column }

  /** The collector keeps every range comparison, the last equality and the first `IN` of a column. */
  predicate Retained(conjuncts: seq<Expr>, n: nat, j: nat)
    requires j < n <= |conjuncts|
  {
    var e := conjuncts[j];
    || (e.CompareTo? && IsBound(e.op) && !e.value.Null?)
    || (SaysEqual(e, if e.CompareTo? || e.IsNull? then e.column else 0) && forall k | j < k < n :: !SaysEqual(conjuncts[k], e.column))
    || (e.In? && SaysIn(e, e.column) && forall k | 0 <= k < j :: !SaysIn(conjuncts[k], e.column))
  }

  /** What is kept of a conjunct. */
  ghost predicate Says(c: Constraint, e: Expr) {
    match e
    case CompareTo(_, op, value) => if op.Eq? then c.equals == Some(value) else exists k | 0 <= k < |c.ranges| :: c.ranges[k] == RangeTerm(op, value)
    case IsNull(_, _) => c.equals == Some(Null)
    case In(_, values) => c.anyOf == Some(values)
    case _ => false
  }

  lemma {:induction false} NoInYet(conjuncts: seq<Expr>, n: nat, column: nat)
    requires n <= |conjuncts| && forall k | 0 <= k < n :: !SaysIn(conjuncts[k], column)
    ensures For(Collected(conjuncts, n), column).anyOf.None?
  {
    hide LikePatterns.Literal, LikePatterns.Spelled;
    if n > 0 { NoInYet(conjuncts, n - 1, column); }
  }

  lemma {:induction false} AddKeeps(cs: Constraints, e: Expr, f: Expr)
    requires f.CompareTo? || f.IsNull? || f.In?
    requires Says(For(cs, f.column), f) && (SaysEqual(f, f.column) ==> !SaysEqual(e, f.column))
    requires f.In? || SaysEqual(f, f.column) || (f.CompareTo? && IsBound(f.op))
    ensures Says(For(Add(cs, e), f.column), f)
  {
    hide LikePatterns.Literal, LikePatterns.Spelled;
    var c, d := For(cs, f.column), For(Add(cs, e), f.column);
    assert c.ranges <= d.ranges;
  }

  lemma {:induction false} CollectedSays(conjuncts: seq<Expr>, n: nat, j: nat)
    requires j < n <= |conjuncts| && Retained(conjuncts, n, j)
    ensures Says(For(Collected(conjuncts, n), conjuncts[j].column), conjuncts[j])
  {
    var e := conjuncts[j];
    if j < n - 1 {
      CollectedSays(conjuncts, n - 1, j);
      hide Says, Add;
      AddKeeps(Collected(conjuncts, n - 1), conjuncts[n - 1], e);
    } else {
      if e.In? { NoInYet(conjuncts, j, e.column); }
      if e.CompareTo? && IsBound(e.op) {
        var before := For(Collected(conjuncts, j), e.column).ranges;
        assert (before + [RangeTerm(e.op, e.value)])[|before|] == RangeTerm(e.op, e.value);
      }
    }
  }

  lemma {:induction false} MeetsRangesAt(ranges: seq<RangeTerm>, n: nat, v: Value, k: nat)
    requires k < n <= |ranges| && MeetsRanges(ranges, n, v)
    ensures ranges[k].op.Apply(Compare(v, ranges[k].value))
  {
    hide Compare;
    if k < n - 1 { MeetsRangesAt(ranges, n - 1, v, k); }
  }

  /** A row that meets what was collected is admitted by each conjunct that is kept. */
  lemma {:induction false} RetainedAdmits(conjuncts: seq<Expr>, n: nat, j: nat, row: Row, world: World)
    requires j < n <= |conjuncts| && Retained(conjuncts, n, j) && MeetsAll(Collected(conjuncts, n), row)
    requires conjuncts[j].CompareTo? ==> !At(row, conjuncts[j].column).Null?
    ensures Admits(conjuncts[j], row, world)
  {
    var e := conjuncts[j];
    var c, v := For(Collected(conjuncts, n), e.column), At(row, e.column);
    CollectedSays(conjuncts, n, j);
    assert Meets(c, v);
    hide Collected, Retained, MeetsRanges, Compare;
    if e.CompareTo? && !e.op.Eq? {
      var k :| 0 <= k < |c.ranges| && c.ranges[k] == RangeTerm(e.op, e.value);
      MeetsRangesAt(c.ranges, |c.ranges|, v, k);
    } else if e.IsNull? {
      NullIsNull(v);
    } else if e.In? {
      var k: nat :| k < |e.values| && !e.values[k].Null? && Same(e.values[k], v);
      SameRank(e.values[k], v);
    }
  }

  lemma {:induction false} NullIsNull(v: Value)
    requires Same(v, Null)
    ensures v == Null
  {
    assert Rank(v) == 0;
  }

  // ----- One bound

  /** `bound_for`: the keys of `column op value`, after a prefix. */
  function BoundFor(prefix: seq<Byte>, op: CmpOp, value: Value, d: Direction): KeyRange {
    var boundary := prefix + Encode(value, d);
    match (if d.Asc? then op else op.Mirrored())
    case Lt => KeyRange(Unbounded, Excluded(boundary))
    case Le => KeyRange(Unbounded, PrefixEnd(boundary))
    case Gt =>
      if PrefixEnd(boundary).Unbounded? then KeyRange(Included(boundary), Excluded(boundary))
      else KeyRange(Included(PrefixEnd(boundary).key), Unbounded)
    case Ge => KeyRange(Included(boundary), Unbounded)
    case Eq => ALL
    case Ne => ALL
  }

  /** Where a key stands against a boundary, when it holds `v` there. */
  lemma {:induction false} AgainstBoundary(prefix: seq<Byte>, v: Value, value: Value, d: Direction, rest: seq<Byte>)
    requires Fits(v) && Fits(value)
    ensures var key, boundary := prefix + (Encode(v, d) + rest), prefix + Encode(value, d);
            match Directed(Compare(v, value), d)
            case Less => Lex(key, boundary) == Less && !IsPrefix(boundary, key)
            case Equal => Lex(key, boundary) != Less && IsPrefix(boundary, key)
            case Greater => Lex(key, boundary) == Greater && !IsPrefix(boundary, key)
  {
    var x, y := Encode(v, d), Encode(value, d);
    DirectedOrder(v, value, d);
    var o := Directed(Compare(v, value), d);
    hide Compare, Encode, Directed;
    LexSharedPrefix(prefix, x + rest, y);
    IsPrefixSplit(prefix, y, prefix, x + rest);
    assert y + [] == y;
    match o
    case Less => BelowSuffix(x, y, rest, []); BelowIsLess(x + rest, y);
    case Greater => BelowSuffix(y, x, [], rest); BelowIsLess(y, x + rest);
    case Equal => Ranges.PrefixIsLow(x, x + rest); LexAntisymmetric(x, x + rest);
  }

  lemma {:induction false} MirroredApplies(op: CmpOp, o: Ordering)
    ensures op.Mirrored().Apply(o.Reverse()) <==> op.Apply(o)
  {
  }

  /** Past a prefix's end: above everything that begins with it. */
  lemma {:induction false} AfterPrefixEnd(boundary: seq<Byte>, key: seq<Byte>)
    requires PrefixEnd(boundary).Excluded?
    ensures AboveStart(Included(PrefixEnd(boundary).key), key) <==> Lex(key, boundary) != Less && !IsPrefix(boundary, key)
  {
    BelowPrefixEnd(boundary, key);
    hide Lex, PrefixEnd, IsPrefix;
  }

  lemma {:induction false} BoundByOrder(boundary: seq<Byte>, op: CmpOp, o: Ordering, key: seq<Byte>)
    requires match o
             case Less => Lex(key, boundary) == Less && !IsPrefix(boundary, key)
             case Equal => Lex(key, boundary) != Less && IsPrefix(boundary, key)
             case Greater => Lex(key, boundary) == Greater && !IsPrefix(boundary, key)
    ensures op.Lt? ==> (Contains(KeyRange(Unbounded, Excluded(boundary)), key) <==> o == Less)
    ensures op.Le? ==> (Contains(KeyRange(Unbounded, PrefixEnd(boundary)), key) <==> o != Greater)
    ensures op.Ge? ==> (Contains(KeyRange(Included(boundary), Unbounded), key) <==> o != Less)
    ensures op.Gt? && PrefixEnd(boundary).Excluded? ==>
              (Contains(KeyRange(Included(PrefixEnd(boundary).key), Unbounded), key) <==> o == Greater)
    ensures op.Gt? && PrefixEnd(boundary).Unbounded? ==> o != Greater
    ensures !Contains(KeyRange(Included(boundary), Excluded(boundary)), key)
  {
    BelowPrefixEnd(boundary, key);
    if PrefixEnd(boundary).Excluded? { AfterPrefixEnd(boundary, key); }
    hide Lex, PrefixEnd, IsPrefix;
  }

  lemma {:induction false} FittingBoundExact(prefix: seq<Byte>, op: CmpOp, value: Value, d: Direction, v: Value, rest: seq<Byte>)
    requires Fits(v) && Fits(value) && IsBound(op)
    ensures Contains(BoundFor(prefix, op, value, d), prefix + (Encode(v, d) + rest)) <==> op.Apply(Compare(v, value))
  {
    var key, boundary := prefix + (Encode(v, d) + rest), prefix + Encode(value, d);
    var o := Directed(Compare(v, value), d);
    AgainstBoundary(prefix, v, value, d, rest);
    MirroredApplies(op, Compare(v, value));
    hide Compare, Encode, Lex, PrefixEnd, IsPrefix, Contains;
    BoundByOrder(boundary, if d.Asc? then op else op.Mirrored(), o, key);
    assert PrefixEnd(boundary).Unbounded? || PrefixEnd(boundary).Excluded? by { PrefixEndShape(boundary); }
  }

  /** A bound is made of what is written of its literal. */
  lemma {:induction false} BoundShort(prefix: seq<Byte>, op: CmpOp, value: Value, d: Direction)
    ensures BoundFor(prefix, op, Truncate(value), d) == BoundFor(prefix, op, value, d)
  {
    TruncateBytes(value);
    hide Truncate, Element, PrefixEnd, Fits;
  }

  /** A bound holds exactly the keys whose value satisfies the comparison with the literal, either way
      up; with what the encoder writes of the literal, where it does not fit. */
  lemma {:induction false} BoundExact(prefix: seq<Byte>, op: CmpOp, value: Value, d: Direction, v: Value, rest: seq<Byte>)
    requires Fits(v) && IsBound(op)
    ensures Contains(BoundFor(prefix, op, value, d), prefix + (Encode(v, d) + rest)) <==> op.Apply(Compare(v, Truncate(value)))
    ensures Fits(value) ==> Truncate(value) == value
  {
    TruncateBytes(value);
    TruncateBelow(value);
    BoundShort(prefix, op, value, d);
    hide Compare, Encode, Truncate, Contains, BoundFor, Fits;
    FittingBoundExact(prefix, op, Truncate(value), d, v, rest);
  }

  // ----- Literals that do not fit

  predicate AllNan(s: seq<UInt32>, n: nat)
    requires n <= |s|
  {
    forall k | 0 <= k < n :: IsNan(SINGLE, s[k])
  }

  /** The literal can be written, or the comparison is one that its shorter form does not narrow. */
  predicate Harmless(op: CmpOp, literal: Value) {
    Fits(literal) || op.Gt? || op.Ge? || (op.Le? && literal.Vector? && AllNan(literal.singles, VectorCount(literal.singles)))
  }

  /** No bound made of the comparison leaves out a value that satisfies it. */
  ghost predicate LosesNone(op: CmpOp, literal: Value, d: Direction) {
    forall prefix: seq<Byte>, v, rest: seq<Byte> | Fits(v) && op.Apply(Compare(v, literal)) ::
      Contains(BoundFor(prefix, op, literal, d), prefix + (Encode(v, d) + rest))
  }

  lemma {:induction false} NanIsLast(a: seq<UInt32>, b: seq<UInt32>)
    requires |a| == |b| && AllNan(b, |b|)
    ensures CompareSingles(a, b) != Greater
  {
    if a != [] {
      assert IsNan(SINGLE, b[0]);
      NanIsLast(a[1..], b[1..]);
    }
  }

  /** One element raised to NaN, and the vector is above what it was. */
  lemma {:induction false} RaisedIsAbove(s: seq<UInt32>, k: nat)
    requires k < |s| && !IsNan(SINGLE, s[k])
    ensures CompareSingles(s[k := SINGLE.nan], s) == Greater
  {
    if k > 0 {
      RaisedIsAbove(s[1..], k - 1);
      assert s[k := SINGLE.nan][1..] == s[1..][k - 1 := SINGLE.nan];
      FloatChain(SINGLE, s[0], s[0], s[0]);
    }
  }

  lemma {:induction false} LongerIsAbove(vs: seq<Value>)
    ensures CompareLists(TruncateAll(vs) + [Null], TruncateAll(vs)) == Greater
    ensures !AllFit(vs) ==> CompareLists(TruncateAll(vs) + [Null], vs) == Less
  {
    if vs != [] {
      LongerIsAbove(vs[1..]);
      TruncateBelow(vs[0]);
      CompareSelf(Truncate(vs[0]));
      AllFitCons(vs);
      var t := TruncateAll(vs);
      assert (t + [Null])[1..] == TruncateAll(vs[1..]) + [Null] && t[1..] == TruncateAll(vs[1..]);
      hide Compare, Truncate, Fits;
    }
  }

  /** A value between what is written of the literal and the literal. */
  lemma {:induction false} Between(literal: Value) returns (v: Value)
    requires !Harmless(Le, literal)
    ensures Fits(v) && Compare(v, literal) == Less && Compare(v, Truncate(literal)) == Greater
  {
    match literal
    case Vector(s) =>
      var t := s[..VectorCount(s)];
      var k: nat :| k < |t| && !IsNan(SINGLE, s[k]);
      assert s[k] == t[k];
      RaisedIsAbove(t, k);
      v := Vector(t[k := SINGLE.nan]);
    case Array(es) =>
      LongerIsAbove(es);
      TruncateAllBytes(es);
      v := Array(TruncateAll(es) + [Null]);
  }

  /** What the shorter form of a harmless literal satisfies. */
  lemma {:induction false} HarmlessKeeps(op: CmpOp, literal: Value, v: Value)
    requires IsBound(op) && Harmless(op, literal) && Fits(v) && op.Apply(Compare(v, literal))
    ensures op.Apply(Compare(v, Truncate(literal)))
  {
    TruncateBelow(literal);
    if !Fits(literal) {
      CompareFlip(Truncate(literal), literal);
      CompareChain(v, literal, Truncate(literal));
      if Compare(v, literal) == Equal {
        CompareFlip(v, literal);
        SameFits(literal, v);
      }
      if op.Le? { NanLiteralKeeps(literal.singles, v); }
      hide Compare, Truncate, Fits;
    }
  }

  /** A value of a type the schema lets into a key. */
  predicate Keyable(v: Value) { !v.Vector? && !v.Array? }

  /** Only vectors and arrays are cut short, and those have a rank of their own. */
  lemma {:induction false} KeyableKeeps(v: Value, literal: Value)
    requires Keyable(v)
    ensures Fits(v) && Compare(v, Truncate(literal)) == Compare(v, literal)
  {
  }

  /** No bound of the column leaves out the value: it is of a type the schema lets into a key, or no
      range comparison has a literal that loses one. */
  ghost predicate Keeps(c: Constraint, v: Value) {
    Fits(v) && (Keyable(v) || forall k | 0 <= k < |c.ranges| :: Harmless(c.ranges[k].op, c.ranges[k].value))
  }

  lemma {:induction false} NanLiteralKeeps(s: seq<UInt32>, v: Value)
    requires Fits(v) && |s| > U32_MAX && AllNan(s, U32_MAX) && Compare(v, Vector(s)) != Greater
    ensures Compare(v, Vector(s[..U32_MAX])) != Greater
  {
    var t := s[..U32_MAX];
    if v.Vector? && |v.singles| == U32_MAX {
      assert AllNan(t, |t|);
      NanIsLast(v.singles, t);
    }
  }

  /** For each comparison, just which literals lose a row: one with `<` exactly if it does not fit, one
      with `<=` unless all that is written of it is NaN, and one with `>` or `>=` never. */
  lemma {:induction false} LosesNoneIff(op: CmpOp, literal: Value, d: Direction)
    requires IsBound(op)
    ensures LosesNone(op, literal, d) <==> Harmless(op, literal)
  {
    hide Contains, BoundFor, Encode;
    if Harmless(op, literal) {
      forall prefix: seq<Byte>, v, rest: seq<Byte> | Fits(v) && op.Apply(Compare(v, literal))
        ensures Contains(BoundFor(prefix, op, literal, d), prefix + (Encode(v, d) + rest))
      {
        HarmlessKeeps(op, literal, v);
        BoundExact(prefix, op, literal, d, v, rest);
      }
    } else {
      var v := LostValue(op, literal);
      BoundExact([], op, literal, d, v, []);
      hide Compare, Truncate, Fits;
    }
  }

  lemma {:induction false} LostValue(op: CmpOp, literal: Value) returns (v: Value)
    requires IsBound(op) && !Harmless(op, literal)
    ensures Fits(v) && op.Apply(Compare(v, literal)) && !op.Apply(Compare(v, Truncate(literal)))
  {
    if op.Lt? {
      v := Truncate(literal);
      TruncateBytes(literal);
      TruncateBelow(literal);
      CompareSelf(v);
    } else {
      v := Between(literal);
    }
    hide Compare, Truncate, Fits;
  }

  lemma {:induction false} PrefixEndShape(prefix: seq<Byte>)
    ensures PrefixEnd(prefix).Unbounded? || PrefixEnd(prefix).Excluded?
  {
  }
}
