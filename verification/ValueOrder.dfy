/** `Ord for Value` is a total order on every value, storable or not. */
module ValueOrder {
  import opened ByteStrings
  import opened Values

  predicate Same(v: Value, w: Value) { Compare(v, w) == Equal }

  predicate SameValues(a: seq<Value>, b: seq<Value>) { |a| == |b| && forall k | 0 <= k < |a| :: Same(a[k], b[k]) }

  /** The comparisons of `x` with `y`, of `y` with `z` and of `x` with `z` fit one order. */
  predicate Chain(xy: Ordering, yz: Ordering, xz: Ordering) {
    && (xy == Equal ==> xz == yz)
    && (yz == Equal ==> xz == xy)
    && (xy == yz ==> xz == xy)
  }

  lemma {:induction false} LexChain(x: seq<Byte>, y: seq<Byte>, z: seq<Byte>)
    ensures Chain(Lex(x, y), Lex(y, z), Lex(x, z))
  {
    if x != [] && y != [] && z != [] { LexChain(x[1..], y[1..], z[1..]); }
  }

  lemma {:induction false} FloatChain(f: FloatFormat, a: nat, b: nat, c: nat)
    requires IsFormat(f)
    ensures Chain(CompareFloats(f, a, b), CompareFloats(f, b, c), CompareFloats(f, a, c))
    ensures CompareFloats(f, b, a) == CompareFloats(f, a, b).Reverse()
  {
  }

  lemma {:induction false} SinglesChain(a: seq<UInt32>, b: seq<UInt32>, c: seq<UInt32>)
    requires |a| == |b| == |c|
    ensures Chain(CompareSingles(a, b), CompareSingles(b, c), CompareSingles(a, c))
  {
    if a != [] {
      FloatChain(SINGLE, a[0], b[0], c[0]);
      hide CompareFloats;
      SinglesChain(a[1..], b[1..], c[1..]);
    }
  }

  lemma {:induction false} SinglesFlip(a: seq<UInt32>, b: seq<UInt32>)
    ensures CompareSingles(b, a) == CompareSingles(a, b).Reverse()
  {
    if a != [] && b != [] {
      FloatChain(SINGLE, a[0], b[0], a[0]);
      hide CompareFloats;
      SinglesFlip(a[1..], b[1..]);
    }
  }

  lemma {:induction false} CompareFlip(v: Value, w: Value)
    ensures Compare(w, v) == Compare(v, w).Reverse()
    decreases v, 1
  {
    if Rank(v) == Rank(w) {
      match v
      case Null =>
      case Bool(_) =>
      case Bytes(a) => LexAntisymmetric(a, w.bytes);
      case Str(a) => LexAntisymmetric(a, w.text);
      case I64(_) =>
      case U64(_) =>
      case Decimal(_) =>
      case F64(a) => FloatChain(DOUBLE, a, w.bits, a);
      case Uuid(a) => LexAntisymmetric(a, w.raw);
      case Vector(a) => SinglesFlip(a, w.singles);
      case Array(a) => ListsFlip(a, w.elements);
    }
  }

  lemma {:induction false} ListsFlip(a: seq<Value>, b: seq<Value>)
    ensures CompareLists(b, a) == CompareLists(a, b).Reverse()
    decreases a, 0
  {
    if a != [] && b != [] {
      CompareFlip(a[0], b[0]);
      ListsFlip(a[1..], b[1..]);
      hide Compare;
    }
  }

  lemma {:induction false} VectorChain(a: seq<UInt32>, b: seq<UInt32>, c: seq<UInt32>)
    ensures Chain(CompareInts(|a|, |b|).Then(CompareSingles(a, b)), CompareInts(|b|, |c|).Then(CompareSingles(b, c)),
                  CompareInts(|a|, |c|).Then(CompareSingles(a, c)))
  {
    hide CompareSingles;
    if |a| == |b| == |c| { SinglesChain(a, b, c); }
  }

  /** Transitivity, and that equal values are interchangeable. */
  lemma {:induction false} CompareChain(u: Value, v: Value, w: Value)
    ensures Chain(Compare(u, v), Compare(v, w), Compare(u, w))
    decreases u, 1
  {
    if Rank(u) == Rank(v) == Rank(w) {
      match u
      case Null =>
      case Bool(_) =>
      case Bytes(a) => LexChain(a, v.bytes, w.bytes);
      case Str(a) => LexChain(a, v.text, w.text);
      case I64(_) =>
      case U64(_) =>
      case Decimal(_) =>
      case F64(a) => FloatChain(DOUBLE, a, v.bits, w.bits);
      case Uuid(a) => LexChain(a, v.raw, w.raw);
      case Vector(a) => VectorChain(a, v.singles, w.singles);
      case Array(a) => ListsChain(a, v.elements, w.elements);
    }
  }

  lemma {:induction false} ListsChain(a: seq<Value>, b: seq<Value>, c: seq<Value>)
    ensures Chain(CompareLists(a, b), CompareLists(b, c), CompareLists(a, c))
    decreases a, 0
  {
    if a != [] && b != [] && c != [] {
      CompareChain(a[0], b[0], c[0]);
      ListsChain(a[1..], b[1..], c[1..]);
      hide Compare;
    }
  }

  lemma {:induction false} CompareSelf(v: Value)
    ensures Compare(v, v) == Equal
  {
    CompareFlip(v, v);
  }

  /** A value equal to one the encoder can write is one itself. */
  lemma {:induction false} SameFits(v: Value, w: Value)
    requires Same(v, w) && Fits(w)
    ensures Fits(v)
    decreases v, 1
  {
    match v
    case Array(a) => SameListsFit(a, w.elements);
    case _ =>
  }

  lemma {:induction false} SameListsFit(a: seq<Value>, b: seq<Value>)
    requires CompareLists(a, b) == Equal && AllFit(b)
    ensures AllFit(a)
    decreases a, 0
  {
    if a != [] {
      SameFits(a[0], b[0]);
      SameListsFit(a[1..], b[1..]);
      AllFitCons(a);
    }
  }
}
