/** The reader over bytes the encoder did not write. */
module Untrusted {
  import opened ByteStrings
  import opened Values
  import ValueOrder
  import opened Encoding
  import opened Tuples
  import opened Decoding
  import opened RoundTrip

  // ----- One value, one encoding

  predicate CanonicalBits(f: FloatFormat, bits: nat)
    requires IsFormat(f)
  {
    IsNan(f, bits) ==> bits == f.nan
  }

  predicate CanonicalFloats(v: Value) {
    match v
    case F64(bits) => CanonicalBits(DOUBLE, bits)
    case Vector(s) => forall b | b in s :: CanonicalBits(SINGLE, b)
    case Array(es) => forall e | e in es :: CanonicalFloats(e)
    case _ => true
  }

  /** The element at `pos` is an integer below `i64::MIN`, which no column can hold. */
  predicate TooNegative(buf: seq<Byte>, pos: nat)
    requires pos <= |buf|
  {
    pos < |buf| && IsIntCode(buf[pos])
    && var r := IntBody(buf, pos + 1, buf[pos], pos); r.Done? && r.value < I64_MIN
  }

  /** Some element of the array body at `pos` is. */
  predicate ListTooNegative(buf: seq<Byte>, pos: nat)
    requires pos <= |buf|
    decreases |buf| - pos
  {
    pos < |buf| && buf[pos] != NUL && buf[pos] != ARRAY
    && (TooNegative(buf, pos)
        || (ReadPlain(buf, pos).Done? && ListTooNegative(buf, ReadPlain(buf, pos).next)))
  }

  predicate HoldsTooNegative(buf: seq<Byte>, pos: nat)
    requires pos <= |buf|
  {
    if pos < |buf| && buf[pos] == ARRAY then ListTooNegative(buf, pos + 1) else TooNegative(buf, pos)
  }

  lemma {:induction false} EscapedCanonical(buf: seq<Byte>, pos: nat, out: seq<Byte>)
    requires pos <= |buf| && EscapedFrom(buf, pos, out).Done?
    ensures var r := EscapedFrom(buf, pos, out);
            |out| <= |r.value| && r.value[..|out|] == out
            && r.next == pos + |Terminated(r.value[|out|..])| && At(buf, pos, Terminated(r.value[|out|..]))
    decreases |buf| - pos
  {
    var s := EscapedFrom(buf, pos, out).value;
    if buf[pos] != NUL {
      EscapedCanonical(buf, pos + 1, out + [buf[pos]]);
      EscapedStep(buf, pos, [buf[pos]], buf[pos], s, out);
    } else if buf[pos + 1] == NUL {
      assert Terminated(s[|out|..]) == [NUL, NUL];
    } else {
      EscapedCanonical(buf, pos + 2, out + [NUL]);
      EscapedStep(buf, pos, [NUL, ESCAPE], NUL, s, out);
    }
  }

  lemma {:induction false} EscapedStep(buf: seq<Byte>, pos: nat, raw: seq<Byte>, b: Byte, s: seq<Byte>, out: seq<Byte>)
    requires raw == EscapedByte(b)
    requires At(buf, pos, raw)
    requires |out| < |s| && s[..|out| + 1] == out + [b]
    requires At(buf, pos + |raw|, Terminated(s[|out| + 1..]))
    ensures s[..|out|] == out
    ensures Terminated(s[|out|..]) == raw + Terminated(s[|out| + 1..]) && At(buf, pos, Terminated(s[|out|..]))
  {
    assert s[..|out|] == s[..|out| + 1][..|out|];
    assert s[|out|] == s[..|out| + 1][|out|] == b;
    assert s[|out|..] == [b] + s[|out| + 1..];
    AtSplit(buf, pos, raw, Terminated(s[|out| + 1..]));
  }

  lemma {:induction false} MinimalBytes(be: seq<Byte>)
    requires |be| <= 8 && MagnitudeLen(FromBigEndian(be)) == |be|
    ensures FromBigEndian(be) <= U64_MAX && MagnitudeBytes(FromBigEndian(be)) == be
    ensures be != [] ==> FromBigEndian(be) > 0
  {
    Pow256Monotone(|be|, 8);
    Pow256Words();
    FromBigEndianRoundTrip(be);
  }

  lemma {:induction false} MinimalInt(negative: bool, be: seq<Byte>)
    requires 0 < |be| <= 8 && MagnitudeLen(FromBigEndian(be)) == |be|
    ensures 0 < FromBigEndian(be) <= U64_MAX
    ensures IntBytes(negative, FromBigEndian(be))
         == [if negative then INT_ZERO - |be| else INT_ZERO + |be|] + if negative then Complement(be) else be
  {
    MinimalBytes(be);
  }

  lemma {:induction false} ZeroBody(buf: seq<Byte>, pos: nat, start: nat)
    requires pos <= |buf|
    ensures IntBody(buf, pos, INT_ZERO, start) == Done(0, pos) && IntBytes(false, 0) == [INT_ZERO]
  {
    assert buf[pos..pos] == [];
  }

  lemma {:induction false} CodeAndRaw(buf: seq<Byte>, pos: nat, len: nat)
    requires pos + 1 + len <= |buf|
    ensures buf[pos..pos + 1 + len] == [buf[pos]] + buf[pos + 1..pos + 1 + len]
  {
  }

  lemma {:induction false} NonZeroBody(buf: seq<Byte>, pos: nat, start: nat)
    requires pos < |buf| && IsIntCode(buf[pos]) && buf[pos] != INT_ZERO && IntBody(buf, pos + 1, buf[pos], start).Done?
    ensures var r, len := IntBody(buf, pos + 1, buf[pos], start), IntLen(buf[pos]);
            r.value != 0 && r.next == pos + 1 + len <= |buf| && (r.value < 0 <==> buf[pos] < INT_ZERO)
            && IntBytes(r.value < 0, Magnitude(r.value)) == buf[pos..pos + 1 + len]
  {
    hide IntBytes, MagnitudeLen, FromBigEndian, Pow256;
    var len, negative := IntLen(buf[pos]), buf[pos] < INT_ZERO;
    var raw := buf[pos + 1..pos + 1 + len];
    var be := if negative then Complement(raw) else raw;
    MinimalInt(negative, be);
    ComplementTwice(raw);
    CodeAndRaw(buf, pos, len);
  }

  /** An accepted integer was written minimally: its bytes are the encoding of its value. */
  lemma {:induction false} IntCanonical(buf: seq<Byte>, pos: nat, start: nat)
    requires pos < |buf| && IsIntCode(buf[pos]) && IntBody(buf, pos + 1, buf[pos], start).Done?
    ensures var r := IntBody(buf, pos + 1, buf[pos], start);
            var sign, m := r.value < 0, Magnitude(r.value);
            At(buf, pos, IntBytes(sign, m)) && r.next == pos + |IntBytes(sign, m)| && (sign ==> m > 0)
  {
    hide IntBytes, IntBody;
    if buf[pos] == INT_ZERO {
      ZeroBody(buf, pos + 1, start);
    } else {
      NonZeroBody(buf, pos, start);
    }
  }

  lemma {:induction false} FloatCanonical(f: FloatFormat, o: nat)
    requires IsFormat(f) && o < 2 * f.half
    ensures ToOrdered(f, FromOrdered(f, o)) == o <==> CanonicalBits(f, FromOrdered(f, o))
  {
  }

  lemma {:induction false} BigEndianInjective(a: nat, b: nat, len: nat)
    requires a < Pow256(len) && b < Pow256(len)
    ensures BigEndian(a, len) == BigEndian(b, len) <==> a == b
  {
    BigEndianRoundTrip(a, len);
    BigEndianRoundTrip(b, len);
  }

  lemma {:induction false} DoubleCanonical(buf: seq<Byte>, pos: nat)
    requires pos + 8 <= |buf|
    ensures var r := DoubleFrom(buf, pos);
            r.Done? && r.next == pos + 8 && (At(buf, pos, Double(r.value)) <==> CanonicalBits(DOUBLE, r.value))
  {
    Pow256Words();
    var raw := buf[pos..pos + 8];
    var o := FromBigEndian(raw);
    FromBigEndianRoundTrip(raw);
    FloatCanonical(DOUBLE, o);
    BigEndianInjective(ToOrdered(DOUBLE, FromOrdered(DOUBLE, o)), o, 8);
  }

  lemma {:induction false} SingleCanonical(buf: seq<Byte>, pos: nat)
    requires pos + 4 <= |buf|
    ensures var bits := FromOrdered(SINGLE, WordAt(buf, pos));
            At(buf, pos, Single(bits)) <==> CanonicalBits(SINGLE, bits)
  {
    Pow256Words();
    var raw := buf[pos..pos + 4];
    var o := FromBigEndian(raw);
    FromBigEndianRoundTrip(raw);
    FloatCanonical(SINGLE, o);
    BigEndianInjective(ToOrdered(SINGLE, FromOrdered(SINGLE, o)), o, 4);
  }

  lemma {:induction false} SinglesCanonical(buf: seq<Byte>, pos: nat, count: nat, out: seq<UInt32>)
    requires pos <= |buf| && SinglesFrom(buf, pos, count, out).Done?
    ensures var r := SinglesFrom(buf, pos, count, out);
            |r.value| == |out| + count && r.value[..|out|] == out && r.next == pos + 4 * count
            && (At(buf, pos, Singles(r.value[|out|..])) <==> forall b | b in r.value[|out|..] :: CanonicalBits(SINGLE, b))
    decreases count
  {
    if count > 0 {
      var first := FromOrdered(SINGLE, WordAt(buf, pos));
      var s := SinglesFrom(buf, pos, count, out).value;
      SinglesCanonical(buf, pos + 4, count - 1, out + [first]);
      SingleCanonical(buf, pos);
      assert s[..|out|] == s[..|out| + 1][..|out|];
      assert s[|out|] == s[..|out| + 1][|out|] == first;
      assert s[|out|..] == [first] + s[|out| + 1..];
      AtSplit(buf, pos, Single(first), Singles(s[|out| + 1..]));
    }
  }

  lemma {:induction false} VectorCanonical(buf: seq<Byte>, pos: nat)
    requires pos <= |buf| && VectorFrom(buf, pos).Done?
    ensures var r := VectorFrom(buf, pos);
            |r.value| <= U32_MAX && r.next == pos + |VectorBody(r.value)|
            && (At(buf, pos, VectorBody(r.value)) <==> forall b | b in r.value :: CanonicalBits(SINGLE, b))
  {
    Pow256Words();
    var n := WordAt(buf, pos);
    SinglesCanonical(buf, pos + 4, n, []);
    var s := VectorFrom(buf, pos).value;
    assert s[0..] == s && s[..VectorCount(s)] == s;
    FromBigEndianRoundTrip(buf[pos..pos + 4]);
    AtSplit(buf, pos, Count(n), Singles(s));
  }

  lemma {:induction false} DecimalCanonical(buf: seq<Byte>, pos: nat, start: nat)
    requires pos <= |buf| && DecimalBody(buf, pos, start).Done?
    ensures var r := DecimalBody(buf, pos, start);
            r.value.Decimal? && r.next == pos + |Integer(r.value.units)| && At(buf, pos, Integer(r.value.units))
  {
    IntCanonical(buf, pos, start);
  }

  lemma {:induction false} AtTagged(buf: seq<Byte>, pos: nat, body: seq<Byte>)
    requires pos < |buf|
    ensures At(buf, pos, [buf[pos]] + body) <==> At(buf, pos + 1, body)
  {
    AtSplit(buf, pos, [buf[pos]], body);
    assert buf[pos..pos + 1] == [buf[pos]];
  }

  lemma {:induction false} SliceAt(buf: seq<Byte>, pos: nat, n: nat)
    requires pos + n <= |buf|
    ensures At(buf, pos, buf[pos..pos + n]) && (n == 1 ==> buf[pos..pos + 1] == [buf[pos]])
  {
  }

  lemma {:induction false} ScalarCanonical(buf: seq<Byte>, pos: nat)
    requires pos < |buf| && !IsIntCode(buf[pos]) && buf[pos] != NULL
    requires ScalarBody(buf, pos + 1, buf[pos], pos).Done?
    ensures var r := ScalarBody(buf, pos + 1, buf[pos], pos);
            !r.value.Array? && Fits(r.value) && r.next == pos + |Element(r.value)|
            && (At(buf, pos, Element(r.value)) <==> CanonicalFloats(r.value))
  {
    hide EscapedFrom, VectorFrom, DoubleFrom, DecimalBody, Integer, VectorBody, Double, Terminated, CanonicalBits, At;
    var r := ScalarBody(buf, pos + 1, buf[pos], pos);
    var v := r.value;
    var code := buf[pos];
    if code == BYTES || code == STR {
      var s := EscapedFrom(buf, pos + 1, []).value;
      EscapedCanonical(buf, pos + 1, []);
      assert s[0..] == s;
      AtTagged(buf, pos, Terminated(s));
    } else if code == DECIMAL {
      DecimalCanonical(buf, pos + 1, pos);
      AtTagged(buf, pos, Integer(v.units));
    } else if code == F64_CODE {
      DoubleReads(buf, pos + 1);
      DoubleCanonical(buf, pos + 1);
      AtTagged(buf, pos, Double(v.bits));
    } else if code == UUID {
      SliceAt(buf, pos + 1, 16);
      AtTagged(buf, pos, v.raw);
    } else if code == VECTOR {
      VectorCanonical(buf, pos + 1);
      AtTagged(buf, pos, VectorBody(v.singles));
    } else {
      SliceAt(buf, pos, 1);
    }
  }

  lemma {:induction false} DoubleReads(buf: seq<Byte>, pos: nat)
    requires pos <= |buf|
    ensures DoubleFrom(buf, pos).Done? <==> pos + 8 <= |buf|
  {
  }

  lemma {:induction false} SignsDiffer(m: UInt64)
    requires m > 0
    ensures |IntBytes(false, m)| == |IntBytes(true, m)| > 0
    ensures IntBytes(false, m)[0] > INT_ZERO > IntBytes(true, m)[0]
  {
    MagnitudeLenPositive(m);
  }

  lemma {:induction false} NotAt(buf: seq<Byte>, pos: nat, x: seq<Byte>, y: seq<Byte>)
    requires At(buf, pos, x) && x != [] && y != [] && x[0] != y[0]
    ensures !At(buf, pos, y)
  {
    assert buf[pos] == buf[pos..pos + |x|][0] == x[0];
    if pos + |y| <= |buf| { assert buf[pos..pos + |y|][0] == buf[pos] != y[0]; }
  }

  lemma {:induction false} IntElementCanonical(buf: seq<Byte>, pos: nat)
    requires pos < |buf| && IsIntCode(buf[pos]) && ReadPlain(buf, pos).Done?
    ensures var r := ReadPlain(buf, pos);
            IsInteger(r.value) && r.next == pos + |Element(r.value)|
            && (At(buf, pos, Element(r.value)) <==> !TooNegative(buf, pos))
  {
    hide IntBytes, IntBody, At;
    var n := IntBody(buf, pos + 1, buf[pos], pos).value;
    IntCanonical(buf, pos, pos);
    if n < I64_MIN {
      var m := Magnitude(n);
      SignsDiffer(m);
      NotAt(buf, pos, IntBytes(true, m), IntBytes(false, m));
    }
  }

  /** A plain element the reader accepts re-encodes to the bytes it came from, except for a NaN
      that is not the canonical one and an integer below `i64::MIN`. */
  lemma {:induction false} PlainCanonical(buf: seq<Byte>, pos: nat)
    requires pos <= |buf| && ReadPlain(buf, pos).Done?
    ensures var r := ReadPlain(buf, pos);
            !r.value.Array? && Fits(r.value) && r.next == pos + |Element(r.value)|
            && (At(buf, pos, Element(r.value)) <==> CanonicalFloats(r.value) && !TooNegative(buf, pos))
  {
    if buf[pos] == NULL {
      assert buf[pos..pos + 1] == [NULL];
    } else if IsIntCode(buf[pos]) {
      IntElementCanonical(buf, pos);
    } else {
      ScalarCanonical(buf, pos);
    }
  }

  ghost predicate NoArrays(vs: seq<Value>) { forall v | v in vs :: !v.Array? }

  lemma {:induction false} NoArraysCons(vs: seq<Value>)
    requires vs != []
    ensures NoArrays(vs) <==> !vs[0].Array? && NoArrays(vs[1..])
  {
    assert forall v :: v in vs <==> v == vs[0] || v in vs[1..];
  }

  ghost predicate AllCanonical(vs: seq<Value>) { forall v | v in vs :: CanonicalFloats(v) }

  lemma {:induction false} ListCanonical(buf: seq<Byte>, pos: nat, out: seq<Value>)
    requires pos <= |buf| && ArrayFrom(buf, pos, out).Done?
    ensures var r := ArrayFrom(buf, pos, out);
            r.value.Array? && |out| <= |r.value.elements| && r.value.elements[..|out|] == out
            && ListSound(buf, pos, r.value.elements[|out|..], r.next)
    decreases |buf| - pos
  {
    var es := ArrayFrom(buf, pos, out).value.elements;
    if buf[pos] == NUL {
      assert es[|out|..] == [];
      assert buf[pos..pos + 1] == [NUL];
      assert Elements([]) + [NUL] == [NUL];
    } else {
      var v, next := ReadPlain(buf, pos).value, ReadPlain(buf, pos).next;
      ListCanonical(buf, next, out + [v]);
      assert es[..|out|] == es[..|out| + 1][..|out|];
      assert es[|out|] == es[..|out| + 1][|out|] == v;
      assert es[|out|..] == [v] + es[|out| + 1..];
      ListSoundCons(buf, pos, es[|out|..], ArrayFrom(buf, pos, out).next);
    }
  }

  /** `vs` is what the list body at `pos` decodes to: no arrays, and the bytes are theirs exactly
      when nothing in it is an alias. */
  ghost predicate ListSound(buf: seq<Byte>, pos: nat, vs: seq<Value>, next: nat)
    requires pos <= |buf|
  {
    && NoArrays(vs) && AllFit(vs)
    && next == pos + |Elements(vs)| + 1
    && (At(buf, pos, Elements(vs) + [NUL]) <==> AllCanonical(vs) && !ListTooNegative(buf, pos))
  }

  lemma {:induction false} ListHead(buf: seq<Byte>, pos: nat, vs: seq<Value>)
    requires pos < |buf| && buf[pos] != NUL && buf[pos] != ARRAY
    requires vs != [] && ReadPlain(buf, pos) == Done(vs[0], ReadPlain(buf, pos).next)
    ensures var mid := ReadPlain(buf, pos).next;
            && mid == pos + |Element(vs[0])| && Fits(vs[0]) && !vs[0].Array?
            && (At(buf, pos, Element(vs[0])) <==> CanonicalFloats(vs[0]) && !TooNegative(buf, pos))
            && (ListTooNegative(buf, pos) <==> TooNegative(buf, pos) || ListTooNegative(buf, mid))
            && Elements(vs) == Element(vs[0]) + Elements(vs[1..])
  {
    PlainCanonical(buf, pos);
    hide ReadPlain, Element, TooNegative, CanonicalFloats;
  }

  lemma {:induction false} ListSoundCons(buf: seq<Byte>, pos: nat, vs: seq<Value>, next: nat)
    requires pos < |buf| && buf[pos] != NUL && buf[pos] != ARRAY
    requires vs != [] && ReadPlain(buf, pos) == Done(vs[0], ReadPlain(buf, pos).next)
    requires ListSound(buf, ReadPlain(buf, pos).next, vs[1..], next)
    ensures ListSound(buf, pos, vs, next)
  {
    hide ReadPlain, Element, Elements, TooNegative, ListTooNegative, CanonicalFloats, Fits, AllFit, AllCanonical, NoArrays, At;
    ListHead(buf, pos, vs);
    ConcatAssociative(Element(vs[0]), Elements(vs[1..]), [NUL]);
    AtSplit(buf, pos, Element(vs[0]), Elements(vs[1..]) + [NUL]);
    AllFitCons(vs);
    AllCanonicalCons(vs);
    NoArraysCons(vs);
  }

  lemma {:induction false} AllCanonicalCons(vs: seq<Value>)
    requires vs != []
    ensures AllCanonical(vs) <==> CanonicalFloats(vs[0]) && AllCanonical(vs[1..])
  {
    assert forall v :: v in vs <==> v == vs[0] || v in vs[1..];
  }

  /** Whatever the bytes, an accepted element is storable, has consumed exactly as many bytes as
      its own encoding has, and is those bytes if and only if its NaNs are canonical and no
      integer in it was below `i64::MIN`. */
  lemma {:induction false} DecodeIsCanonicalIff(buf: seq<Byte>, pos: nat)
    requires pos <= |buf| && ReadDynamic(buf, pos).Done?
    ensures var r := ReadDynamic(buf, pos);
            Storable(r.value) && r.next == pos + |Element(r.value)|
            && (buf[pos..r.next] == Element(r.value) <==> CanonicalFloats(r.value) && !HoldsTooNegative(buf, pos))
  {
    hide ReadPlain, ArrayFrom;
    if buf[pos] == ARRAY {
      ListCanonical(buf, pos + 1, []);
      var es := ReadDynamic(buf, pos).value.elements;
      assert es[0..] == es;
      ConcatAssociative([ARRAY], Elements(es), [NUL]);
      AtTagged(buf, pos, Elements(es) + [NUL]);
    } else {
      PlainCanonical(buf, pos);
    }
  }

  /** Schema-directed and self-describing reads agree on position and value. */
  lemma {:induction false} ReadAgreesWithDynamic(buf: seq<Byte>, pos: nat, t: ValueType)
    requires pos <= |buf| && Read(buf, pos, t).Done?
    ensures var r, s := Read(buf, pos, t), ReadDynamic(buf, pos);
            s.Done? && s.next == r.next && Compare(r.value, s.value) == Equal && Element(r.value) == Element(s.value)
  {
    hide IntBody, ArrayFrom, Compare, Element, Fits;
    var r, s := Read(buf, pos, t), ReadDynamic(buf, pos);
    if !IsIntCode(buf[pos]) {
      DecodeIsCanonicalIff(buf, pos);
      ValueOrder.CompareSelf(r.value);
    } else {
      SameInteger(r.value, s.value);
    }
  }

  lemma {:induction false} SameInteger(v: Value, w: Value)
    requires IsInteger(v) && IsInteger(w) && AsInt(v) == AsInt(w)
    ensures Compare(v, w) == Equal && Element(v) == Element(w)
  {
  }

  /** Two accepted spellings of one value are one spelling, away from those two aliases. */
  lemma {:induction false} EqualValuesEqualBytes(a: seq<Byte>, b: seq<Byte>)
    requires ReadDynamic(a, 0).Done? && ReadDynamic(b, 0).Done?
    requires var v, w := ReadDynamic(a, 0), ReadDynamic(b, 0);
             CanonicalFloats(v.value) && CanonicalFloats(w.value) && !HoldsTooNegative(a, 0) && !HoldsTooNegative(b, 0)
    ensures var v, w := ReadDynamic(a, 0), ReadDynamic(b, 0);
            Compare(v.value, w.value) == Equal <==> a[..v.next] == b[..w.next]
  {
    hide ReadDynamic, Element, Compare;
    DecodeIsCanonicalIff(a, 0);
    DecodeIsCanonicalIff(b, 0);
    ElementsPrefixFree(ReadDynamic(a, 0).value, ReadDynamic(b, 0).value, Asc, []);
  }

  /** The first alias: every foreign NaN pattern is accepted, equals the canonical NaN, and is
      spelled with other bytes. */
  lemma {:induction false} ForeignNanAccepted(bits: UInt64)
    requires IsNan(DOUBLE, bits) && bits != DOUBLE.nan
    ensures var o := if bits < DOUBLE.half then bits + DOUBLE.half else U64_MAX - bits;
            o < Pow256(8)
            && var bytes := [F64_CODE] + BigEndian(o, 8);
            ReadDynamic(bytes, 0) == Done(F64(bits), 9)
            && Compare(F64(bits), F64(DOUBLE.nan)) == Equal && Element(F64(DOUBLE.nan)) != bytes
  {
    Pow256Words();
    var o := if bits < DOUBLE.half then bits + DOUBLE.half else U64_MAX - bits;
    var be := BigEndian(o, 8);
    var bytes := [F64_CODE] + be;
    BigEndianRoundTrip(o, 8);
    assert bytes[1..9] == be;
    BigEndianInjective(ToOrdered(DOUBLE, DOUBLE.nan), o, 8);
    assert Element(F64(DOUBLE.nan))[1..] == BigEndian(ToOrdered(DOUBLE, DOUBLE.nan), 8);
    assert bytes[1..] == be;
  }

  lemma {:induction false} NegativeBody(n: int)
    requires -U64_MAX <= n < 0
    ensures var bytes := IntBytes(true, -n);
            IsIntCode(bytes[0]) && IntBody(bytes, 1, bytes[0], 0) == Done(n, |bytes|)
  {
    hide MagnitudeBytes, MagnitudeLen, MagnitudeAt;
    var bytes := IntBytes(true, -n);
    var be := MagnitudeBytes(-n);
    MagnitudeLenPositive(-n);
    assert bytes[1..1 + |be|] == Complement(be);
    MagnitudeBytesAt(bytes, 1, -n, true);
  }

  /** The second: an integer below `i64::MIN` is refused by a typed read and comes back from a
      self-describing one with its sign dropped. */
  lemma {:induction false} SignDropped(n: int)
    requires -U64_MAX <= n < I64_MIN
    ensures var bytes := IntBytes(true, -n);
            ReadDynamic(bytes, 0) == Done(U64(-n), |bytes|)
            && Read(bytes, 0, TI64) == Fail(IntegerOutOfRange(0, n, TI64), |bytes|)
  {
    NegativeBody(n);
    hide IntBody, IntBytes;
  }

  // ----- Skipping

  lemma {:induction false} SkipEscapedAgrees(buf: seq<Byte>, pos: nat, out: seq<Byte>)
    requires pos <= |buf|
    ensures var r, s := EscapedFrom(buf, pos, out), SkipEscaped(buf, pos);
            r.next == s.next && (r.Done? <==> s.Done?)
            && (r.Fail? ==> r.error == s.error && (r.error.Truncated? || r.error.MalformedEscape?))
    decreases |buf| - pos
  {
    if pos < |buf| {
      if buf[pos] != NUL {
        SkipEscapedAgrees(buf, pos + 1, out + [buf[pos]]);
      } else if pos + 1 < |buf| && buf[pos + 1] == ESCAPE {
        SkipEscapedAgrees(buf, pos + 2, out + [NUL]);
      }
    }
  }

  lemma {:induction false} SinglesReads(buf: seq<Byte>, pos: nat, count: nat, out: seq<UInt32>)
    requires pos <= |buf|
    ensures var r := SinglesFrom(buf, pos, count, out);
            if pos + 4 * count <= |buf| then r.Done? && r.next == pos + 4 * count
            else r.Fail? && r.error.Truncated?
    decreases count
  {
    if count > 0 && pos + 4 <= |buf| {
      SinglesReads(buf, pos + 4, count - 1, out + [FromOrdered(SINGLE, WordAt(buf, pos))]);
    }
  }

  /** What only looking at the contents can refuse: a padded integer, text that is not UTF-8, or a
      decimal out of range, which is reported as its integer's code. */
  predicate ContentError(e: TupleError) {
    e.NonCanonicalInteger? || e.InvalidUtf8? || (e.UnknownTypeCode? && IsIntCode(e.code))
  }

  /** One error, or bytes missing on both sides, if not counted from one place. */
  predicate SameRefusal(a: TupleError, b: TupleError) { a == b || (a.Truncated? && b.Truncated?) }

  predicate Alike(s: Scan<()>, t: Scan<()>) {
    s.next == t.next && (s.Done? <==> t.Done?) && (s.Fail? ==> s.error == t.error)
  }

  /** `s` passes over what `r` reads and refuses what `r` refuses, contents apart: there it is `onward`. */
  predicate Follows(r: Scan<Value>, s: Scan<()>, onward: Scan<()>) {
    if r.Done? then s.Done? && s.next == r.next
    else if ContentError(r.error) then Alike(s, onward)
    else s.Fail? && SameRefusal(r.error, s.error)
  }

  /** What skipping does after contents that a read refuses: it is past them, and in an array goes on. */
  function Onward(buf: seq<Byte>, pos: nat, next: nat): Scan<()>
    requires pos <= next <= |buf|
  {
    if pos < |buf| && buf[pos] == ARRAY then SkipArray(buf, next) else Done((), next)
  }

  lemma {:induction false} SkipPlainFollows(buf: seq<Byte>, pos: nat)
    requires pos <= |buf|
    ensures var r := ReadPlain(buf, pos); Follows(r, SkipPlain(buf, pos), Done((), r.next))
  {
    hide MagnitudeAt, MagnitudeLen, FromBigEndian;
    if pos < |buf| {
      if buf[pos] == BYTES || buf[pos] == STR {
        SkipEscapedAgrees(buf, pos + 1, []);
      } else if buf[pos] == VECTOR && pos + 5 <= |buf| {
        SinglesReads(buf, pos + 5, WordAt(buf, pos + 1), []);
      }
    }
  }

  lemma {:induction false} SkipArrayFollows(buf: seq<Byte>, pos: nat, out: seq<Value>)
    requires pos <= |buf|
    ensures var r := ArrayFrom(buf, pos, out); Follows(r, SkipArray(buf, pos), SkipArray(buf, r.next))
    decreases |buf| - pos
  {
    if pos < |buf| && buf[pos] != NUL && buf[pos] != ARRAY {
      SkipPlainFollows(buf, pos);
      var r := ReadPlain(buf, pos);
      if r.Done? { SkipArrayFollows(buf, r.next, out + [r.value]); }
      hide ReadPlain, SkipPlain;
    }
  }

  /** On any bytes, skipping lands exactly where decoding does, shares each of its refusals but those
      of contents, and where contents are refused is past them, going on if they stand in an array. */
  lemma {:induction false} SkipFollowsRead(buf: seq<Byte>, pos: nat)
    requires pos <= |buf|
    ensures var r := ReadDynamic(buf, pos); Follows(r, Skip(buf, pos), Onward(buf, pos, r.next))
  {
    if pos < |buf| && buf[pos] == ARRAY {
      SkipArrayFollows(buf, pos + 1, []);
    } else {
      SkipPlainFollows(buf, pos);
    }
    hide ReadPlain, SkipPlain, SkipArray, ArrayFrom;
  }
}
