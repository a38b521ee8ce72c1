/** Decoding undoes encoding, exactly where it can. */
module RoundTrip {
  import opened ByteStrings
  import opened Values
  import opened Encoding
  import opened Tuples
  import opened Decoding

  /** `bytes` stand in `buf` at `pos`. */
  predicate At(buf: seq<Byte>, pos: nat, bytes: seq<Byte>) {
    pos + |bytes| <= |buf| && buf[pos..pos + |bytes|] == bytes
  }

  lemma {:induction false} AtSplit(buf: seq<Byte>, pos: nat, x: seq<Byte>, y: seq<Byte>)
    ensures At(buf, pos, x + y) <==> At(buf, pos, x) && At(buf, pos + |x|, y)
  {
    if At(buf, pos, x + y) {
      assert x == (x + y)[..|x|] && y == (x + y)[|x|..];
      assert buf[pos..pos + |x|] == buf[pos..pos + |x + y|][..|x|];
      assert buf[pos + |x|..pos + |x| + |y|] == buf[pos..pos + |x + y|][|x|..];
    }
    if At(buf, pos, x) && At(buf, pos + |x|, y) {
      assert buf[pos..pos + |x + y|] == buf[pos..pos + |x|] + buf[pos + |x|..pos + |x| + |y|];
    }
  }

  lemma {:induction false} AtByte(buf: seq<Byte>, pos: nat, b: Byte)
    requires At(buf, pos, [b])
    ensures pos < |buf| && buf[pos] == b
  {
    assert buf[pos] == buf[pos..pos + 1][0];
  }

  lemma {:induction false} AtTag(buf: seq<Byte>, pos: nat, code: Byte, body: seq<Byte>)
    requires At(buf, pos, [code] + body)
    ensures pos < |buf| && buf[pos] == code && At(buf, pos + 1, body)
  {
    AtSplit(buf, pos, [code], body);
    AtByte(buf, pos, code);
  }

  lemma {:induction false} EscapedAt(buf: seq<Byte>, pos: nat, s: seq<Byte>, out: seq<Byte>)
    requires At(buf, pos, Terminated(s))
    ensures EscapedFrom(buf, pos, out) == Done(out + s, pos + |Terminated(s)|)
    decreases |s|
  {
    if s == [] {
      AtTag(buf, pos, NUL, [NUL]);
      AtByte(buf, pos + 1, NUL);
      assert out + s == out;
    } else {
      var rest := Terminated(s[1..]);
      if s[0] == NUL {
        assert Terminated(s) == [NUL] + ([ESCAPE] + rest);
        AtTag(buf, pos, NUL, [ESCAPE] + rest);
        AtTag(buf, pos + 1, ESCAPE, rest);
        EscapedAt(buf, pos + 2, s[1..], out + [NUL]);
      } else {
        assert Terminated(s) == [s[0]] + rest;
        AtTag(buf, pos, s[0], rest);
        EscapedAt(buf, pos + 1, s[1..], out + [s[0]]);
      }
      assert out + [s[0]] + s[1..] == out + s;
    }
  }

  lemma {:induction false} MagnitudeBytesAt(buf: seq<Byte>, pos: nat, m: UInt64, negative: bool)
    requires At(buf, pos, if negative then Complement(MagnitudeBytes(m)) else MagnitudeBytes(m))
    ensures MagnitudeAt(buf, pos, |MagnitudeBytes(m)|, negative) == m
  {
    MagnitudeLenMinimal(m, MagnitudeLen(m));
    BigEndianRoundTrip(m, MagnitudeLen(m));
    ComplementTwice(MagnitudeBytes(m));
  }

  lemma {:induction false} IntegerAt(buf: seq<Byte>, pos: nat, n: int, start: nat)
    requires IsWide(n) && At(buf, pos, Integer(n))
    ensures pos < |buf| && IsIntCode(buf[pos])
    ensures IntBody(buf, pos + 1, buf[pos], start) == Done(n, pos + |Integer(n)|)
  {
    if n == 0 {
      AtByte(buf, pos, INT_ZERO);
    } else {
      hide MagnitudeBytes, MagnitudeLen, MagnitudeAt;
      var be := MagnitudeBytes(Magnitude(n));
      MagnitudeLenPositive(Magnitude(n));
      if n < 0 {
        AtTag(buf, pos, INT_ZERO - |be|, Complement(be));
      } else {
        AtTag(buf, pos, INT_ZERO + |be|, be);
      }
      MagnitudeBytesAt(buf, pos + 1, Magnitude(n), n < 0);
    }
  }

  lemma {:induction false} WordRoundTrip(buf: seq<Byte>, pos: nat, w: UInt32)
    requires w < Pow256(4) && At(buf, pos, BigEndian(w, 4))
    ensures WordAt(buf, pos) == w
  {
    BigEndianRoundTrip(w, 4);
  }

  function CanonicalSingles(s: seq<UInt32>): (r: seq<UInt32>)
    ensures |r| == |s|
  {
    seq(|s|, i requires 0 <= i < |s| => CanonicalNan(SINGLE, s[i]))
  }

  lemma {:induction false} SinglesAt(buf: seq<Byte>, pos: nat, s: seq<UInt32>, out: seq<UInt32>)
    requires At(buf, pos, Singles(s))
    ensures SinglesFrom(buf, pos, |s|, out) == Done(out + CanonicalSingles(s), pos + 4 * |s|)
    decreases |s|
  {
    if s == [] {
      assert out + CanonicalSingles(s) == out;
    } else {
      AtSplit(buf, pos, Single(s[0]), Singles(s[1..]));
      Pow256Words();
      WordRoundTrip(buf, pos, ToOrdered(SINGLE, s[0]));
      FloatRoundTrip(SINGLE, s[0]);
      var first := CanonicalNan(SINGLE, s[0]);
      SinglesAt(buf, pos + 4, s[1..], out + [first]);
      assert out + [first] + CanonicalSingles(s[1..]) == out + CanonicalSingles(s);
    }
  }

  lemma {:induction false} VectorAt(buf: seq<Byte>, pos: nat, s: seq<UInt32>)
    requires At(buf, pos, VectorBody(s))
    ensures VectorFrom(buf, pos) == Done(CanonicalSingles(s[..VectorCount(s)]), pos + |VectorBody(s)|)
  {
    var n := VectorCount(s);
    AtSplit(buf, pos, Count(n), Singles(s[..n]));
    Pow256Words();
    WordRoundTrip(buf, pos, n);
    SinglesAt(buf, pos + 4, s[..n], []);
    assert [] + CanonicalSingles(s[..n]) == CanonicalSingles(s[..n]);
  }

  lemma {:induction false} DoubleAt(buf: seq<Byte>, pos: nat, bits: UInt64)
    requires At(buf, pos, Double(bits))
    ensures DoubleFrom(buf, pos) == Done(CanonicalNan(DOUBLE, bits), pos + 8)
  {
    Pow256Words();
    BigEndianRoundTrip(ToOrdered(DOUBLE, bits), 8);
    FloatRoundTrip(DOUBLE, bits);
  }

  /** What the reader gives back: NaNs canonical, over-long vectors cut, integers inside an
      array signed wherever they fit. */
  function Stored(v: Value): (w: Value)
    decreases v, 0
  {
    match v
    case F64(bits) => F64(CanonicalNan(DOUBLE, bits))
    case Vector(s) => Vector(CanonicalSingles(s[..VectorCount(s)]))
    case Array(es) => Array(StoredElements(es))
    case _ => v
  }

  function StoredElement(v: Value): Value
    decreases v, 1
  {
    if IsInteger(v) then FitInt(AsInt(v)) else Stored(v)
  }

  function StoredElements(vs: seq<Value>): (ws: seq<Value>)
    ensures |ws| == |vs|
    decreases vs, 0
  {
    if vs == [] then [] else [StoredElement(vs[0])] + StoredElements(vs[1..])
  }

  lemma {:induction false} ScalarAt(buf: seq<Byte>, pos: nat, v: Value)
    requires At(buf, pos, Element(v))
    requires !v.Null? && !IsInteger(v) && !v.Array?
    ensures pos < |buf| && buf[pos] == Element(v)[0]
    ensures ScalarBody(buf, pos + 1, buf[pos], pos) == Done(Stored(v), pos + |Element(v)|)
  {
    hide Integer, Double, VectorBody, Terminated, IntBody, EscapedFrom, DoubleFrom, VectorFrom;
    match v
    case Bool(b) => AtByte(buf, pos, if b then TRUE else FALSE);
    case Bytes(s) => AtTag(buf, pos, BYTES, Terminated(s)); EscapedAt(buf, pos + 1, s, []); assert [] + s == s;
    case Str(s) => AtTag(buf, pos, STR, Terminated(s)); EscapedAt(buf, pos + 1, s, []); assert [] + s == s;
    case Decimal(n) => AtTag(buf, pos, DECIMAL, Integer(n)); IntegerAt(buf, pos + 1, n, pos);
    case F64(bits) => AtTag(buf, pos, F64_CODE, Double(bits)); DoubleAt(buf, pos + 1, bits);
    case Uuid(raw) => AtTag(buf, pos, UUID, raw);
    case Vector(s) => AtTag(buf, pos, VECTOR, VectorBody(s)); VectorAt(buf, pos + 1, s);
  }

  lemma {:induction false} PlainAt(buf: seq<Byte>, pos: nat, v: Value)
    requires At(buf, pos, Element(v)) && !v.Array?
    ensures ReadPlain(buf, pos) == Done(StoredElement(v), pos + |Element(v)|)
  {
    CodeOfRank(v);
    if v.Null? {
      AtByte(buf, pos, NULL);
    } else if IsInteger(v) {
      IntegerAt(buf, pos, AsInt(v), pos);
    } else {
      ScalarAt(buf, pos, v);
    }
  }

  /** One turn of the array loop over an encoded element: taken in, or refused if it is an array. */
  lemma {:induction false} ArrayStep(buf: seq<Byte>, pos: nat, v: Value, rest: seq<Byte>, out: seq<Value>)
    requires At(buf, pos, Element(v) + rest)
    ensures At(buf, pos + |Element(v)|, rest)
    ensures v.Array? ==> ArrayFrom(buf, pos, out).Fail?
    ensures !v.Array? ==> ArrayFrom(buf, pos, out) == ArrayFrom(buf, pos + |Element(v)|, out + [StoredElement(v)])
  {
    hide ReadPlain, Element, StoredElement;
    AtSplit(buf, pos, Element(v), rest);
    CodeOfRank(v);
    assert buf[pos] == buf[pos..pos + |Element(v)|][0] == Element(v)[0];
    if !v.Array? { PlainAt(buf, pos, v); }
  }

  lemma {:induction false} ElementsCons(vs: seq<Value>, out: seq<Value>)
    requires vs != []
    ensures Elements(vs) + [NUL] == Element(vs[0]) + (Elements(vs[1..]) + [NUL])
    ensures out + [StoredElement(vs[0])] + StoredElements(vs[1..]) == out + StoredElements(vs)
  {
    hide Element, StoredElement;
    ConcatAssociative(Element(vs[0]), Elements(vs[1..]), [NUL]);
    ConcatAssociative(out, [StoredElement(vs[0])], StoredElements(vs[1..]));
  }

  lemma {:induction false} ArrayEnd(buf: seq<Byte>, pos: nat, out: seq<Value>)
    requires At(buf, pos, [NUL])
    ensures ArrayFrom(buf, pos, out) == Done(Array(out), pos + 1)
  {
    AtByte(buf, pos, NUL);
  }

  lemma {:induction false} ElementsAt(buf: seq<Byte>, pos: nat, vs: seq<Value>, out: seq<Value>)
    requires At(buf, pos, Elements(vs) + [NUL])
    requires forall v | v in vs :: !v.Array?
    ensures ArrayFrom(buf, pos, out) == Done(Array(out + StoredElements(vs)), pos + |Elements(vs)| + 1)
    decreases |vs|
  {
    hide ArrayFrom, Element, StoredElement;
    if vs == [] {
      ArrayEnd(buf, pos, out);
      assert out + StoredElements(vs) == out;
    } else {
      ElementsCons(vs, out);
      ArrayStep(buf, pos, vs[0], Elements(vs[1..]) + [NUL], out);
      ElementsAt(buf, pos + |Element(vs[0])|, vs[1..], out + [StoredElement(vs[0])]);
    }
  }

  /** A nested array stops the decoder wherever it stands in the list. */
  lemma {:induction false} NestedArrayRefused(buf: seq<Byte>, pos: nat, vs: seq<Value>, k: nat, out: seq<Value>)
    requires At(buf, pos, Elements(vs) + [NUL])
    requires k < |vs| && vs[k].Array?
    ensures ArrayFrom(buf, pos, out).Fail?
    decreases |vs|
  {
    hide ArrayFrom, Element, StoredElement;
    ElementsCons(vs, out);
    ArrayStep(buf, pos, vs[0], Elements(vs[1..]) + [NUL], out);
    if !vs[0].Array? {
      NestedArrayRefused(buf, pos + |Element(vs[0])|, vs[1..], k - 1, out + [StoredElement(vs[0])]);
    }
  }

  /** The type a column must declare to read `v`; null reads under any. */
  predicate Types(v: Value, t: ValueType) {
    match v
    case Null => true
    case Bool(_) => t == TBool
    case Bytes(_) => t == TBytes
    case Str(_) => t == TStr
    case I64(_) => t == TI64
    case U64(_) => t == TU64
    case F64(_) => t == TF64
    case Decimal(_) => t == TDecimal
    case Uuid(_) => t == TUuid
    case Vector(_) => t == TVector
    case Array(_) => t == TArray
  }

  /** Schema-directed read of an encoding standing anywhere in a buffer, whatever follows it. */
  lemma {:induction false} ReadAt(buf: seq<Byte>, pos: nat, v: Value, t: ValueType)
    requires At(buf, pos, Element(v)) && Types(v, t)
    ensures Flat(v) ==> Read(buf, pos, t) == Done(Stored(v), pos + |Element(v)|)
    ensures !Flat(v) ==> Read(buf, pos, t).Fail?
  {
    CodeOfRank(v);
    assert buf[pos] == buf[pos..pos + |Element(v)|][0] == Element(v)[0];
    if v.Null? {
    } else if IsInteger(v) {
      IntegerAt(buf, pos, AsInt(v), pos);
    } else if !v.Array? {
      ScalarAt(buf, pos, v);
    } else {
      var es := v.elements;
      assert Element(v) == [ARRAY] + (Elements(es) + [NUL]);
      AtTag(buf, pos, ARRAY, Elements(es) + [NUL]);
      if Flat(v) {
        ElementsAt(buf, pos + 1, es, []);
        assert [] + StoredElements(es) == StoredElements(es);
      } else {
        var k :| 0 <= k < |es| && es[k].Array?;
        NestedArrayRefused(buf, pos + 1, es, k, []);
      }
    }
  }

  // ----- What comes back equals what went in

  lemma {:induction false} CanonicalSinglesEqual(s: seq<UInt32>)
    ensures CompareSingles(s, CanonicalSingles(s)) == Equal
  {
    if s != [] {
      FloatRoundTrip(SINGLE, s[0]);
      CanonicalSinglesEqual(s[1..]);
      assert CanonicalSingles(s)[1..] == CanonicalSingles(s[1..]);
    }
  }

  lemma {:induction false} StoredScalarEqual(v: Value)
    requires !v.Array?
    ensures Compare(v, StoredElement(v)) == Equal <==> Fits(v)
    ensures Compare(v, Stored(v)) == Equal <==> Fits(v)
  {
    match v
    case Bytes(s) => LexReflexive(s);
    case Str(s) => LexReflexive(s);
    case Uuid(raw) => LexReflexive(raw);
    case F64(bits) => FloatRoundTrip(DOUBLE, bits);
    case Vector(s) =>
      if Fits(v) {
        assert s[..VectorCount(s)] == s;
        CanonicalSinglesEqual(s);
      }
    case _ =>
  }

  lemma {:induction false} StoredElementsEqual(vs: seq<Value>)
    requires forall v | v in vs :: !v.Array?
    ensures CompareLists(vs, StoredElements(vs)) == Equal <==> AllFit(vs)
  {
    if vs == [] {
    } else {
      hide Compare, StoredElement, Fits, AllFit;
      StoredScalarEqual(vs[0]);
      StoredElementsEqual(vs[1..]);
      assert StoredElements(vs)[1..] == StoredElements(vs[1..]);
      AllFitCons(vs);
    }
  }

  lemma {:induction false} StoredEqual(v: Value)
    requires Flat(v)
    ensures Compare(v, Stored(v)) == Equal <==> Fits(v)
  {
    if v.Array? { StoredElementsEqual(v.elements); } else { StoredScalarEqual(v); }
  }

  lemma {:induction false} AtMasked(buf: seq<Byte>, pos: nat, s: seq<Byte>, d: Direction)
    ensures At(buf, pos, Masked(s, d)) <==> At(Masked(buf, d), pos, s)
  {
    if pos + |s| <= |buf| {
      var mid := buf[pos..pos + |s|];
      assert Masked(buf, d)[pos..pos + |s|] == Masked(mid, d);
      MaskedTwice(mid, d);
      MaskedTwice(s, d);
    }
  }

  /** The element comes back equal to what was written, with exactly its own bytes consumed,
      if and only if it is storable: no vector over `u32::MAX`, no array inside an array. */
  lemma {:induction false} RoundTripIffStorable(v: Value, t: ValueType, d: Direction, before: seq<Byte>, rest: seq<Byte>)
    requires Types(v, t)
    ensures var r := Read(Masked(before + Encode(v, d) + rest, d), |before|, t);
            Storable(v) <==> r.Done? && r.next == |before| + |Encode(v, d)| && Compare(v, r.value) == Equal
  {
    var buf := before + Encode(v, d) + rest;
    assert buf[|before|..|before| + |Encode(v, d)|] == Encode(v, d);
    AtMasked(buf, |before|, Element(v), d);
    ReadAt(Masked(buf, d), |before|, v, t);
    if Flat(v) { StoredEqual(v); }
  }

  function StoredAll(vs: seq<Value>): (ws: seq<Value>)
    ensures |ws| == |vs|
  {
    seq(|vs|, i requires 0 <= i < |vs| => Stored(vs[i]))
  }

  predicate AllTyped(vs: seq<Value>, types: seq<ValueType>) {
    |vs| == |types| && forall i | 0 <= i < |vs| :: Types(vs[i], types[i])
  }

  lemma {:induction false} ReadEncodedAt(buf: seq<Byte>, pos: nat, v: Value, t: ValueType, d: Direction)
    requires At(buf, pos, Encode(v, d)) && Types(v, t) && Flat(v)
    ensures Read(Masked(buf, d), pos, t) == Done(Stored(v), pos + |Encode(v, d)|)
  {
    AtMasked(buf, pos, Element(v), d);
    ReadAt(Masked(buf, d), pos, v, t);
  }

  lemma {:induction false} ReadAllAt(buf: seq<Byte>, pos: nat, vs: seq<Value>, types: seq<ValueType>, dirs: seq<Direction>, out: seq<Value>)
    requires At(buf, pos, EncodeWith(vs, dirs)) && AllTyped(vs, types)
    requires forall v | v in vs :: Flat(v)
    ensures ReadAll(buf, pos, types, dirs, out) == Done(out + StoredAll(vs), pos + |EncodeWith(vs, dirs)|)
    decreases |vs|
  {
    hide Read, Element, Stored, Types, Flat;
    if vs == [] {
      assert out + StoredAll(vs) == out;
    } else {
      var d := Encoding.Head(dirs);
      AtSplit(buf, pos, Encode(vs[0], d), EncodeWith(vs[1..], Encoding.Tail(dirs)));
      ReadEncodedAt(buf, pos, vs[0], types[0], d);
      ReadAllAt(buf, pos + |Encode(vs[0], d)|, vs[1..], types[1..], Encoding.Tail(dirs), out + [Stored(vs[0])]);
      assert out + [Stored(vs[0])] + StoredAll(vs[1..]) == out + StoredAll(vs);
    }
  }

  /** Decoding the leading columns of a key hands back the rest of it byte-exact, for any bytes
      whatever after them: no suffix can be read as part of a column. */
  lemma {:induction false} DecodePrefixRoundTrip(vs: seq<Value>, types: seq<ValueType>, dirs: seq<Direction>, rest: seq<Byte>)
    requires AllTyped(vs, types) && (forall v | v in vs :: Storable(v))
    ensures var buf := EncodeWith(vs, dirs) + rest;
            var r := ReadAll(buf, 0, types, dirs, []);
            r.Done? && buf[r.next..] == rest && |r.value| == |vs|
            && forall i | 0 <= i < |vs| :: Compare(vs[i], r.value[i]) == Equal
  {
    var bytes := EncodeWith(vs, dirs);
    var buf := bytes + rest;
    assert buf[0..|bytes|] == bytes;
    ReadAllAt(buf, 0, vs, types, dirs, []);
    assert [] + StoredAll(vs) == StoredAll(vs);
    forall i | 0 <= i < |vs| ensures Compare(vs[i], StoredAll(vs)[i]) == Equal {
      StoredEqual(vs[i]);
    }
  }

  lemma {:induction false} DecodeRoundTrip(vs: seq<Value>, types: seq<ValueType>)
    requires AllTyped(vs, types) && (forall v | v in vs :: Storable(v))
    ensures var r := Decode(EncodeWith(vs, []), types);
            r.Done? && |r.value| == |vs| && forall i | 0 <= i < |vs| :: Compare(vs[i], r.value[i]) == Equal
  {
    DecodePrefixRoundTrip(vs, types, [], []);
    assert EncodeWith(vs, []) + [] == EncodeWith(vs, []);
  }
}
