/** The order-preserving encoder: byte order is value order. */
module Encoding {
  import opened ByteStrings
  import opened Values

  datatype Direction = Asc | Desc

  const NULL: Byte := 0x01
  const FALSE: Byte := 0x02
  const TRUE: Byte := 0x03
  const BYTES: Byte := 0x04
  const STR: Byte := 0x05
  const INT_ZERO: Byte := 0x15
  const INT_MIN: Byte := 0x0D
  const INT_MAX: Byte := 0x1D
  const DECIMAL: Byte := 0x1E
  const F64_CODE: Byte := 0x21
  const UUID: Byte := 0x22
  const VECTOR: Byte := 0x23
  const ARRAY: Byte := 0x24
  const NUL: Byte := 0x00
  const ESCAPE: Byte := 0xFF

  /** Directions past the end of a list are ascending. */
  function Head(dirs: seq<Direction>): Direction { if dirs == [] then Asc else dirs[0] }

  function Tail(dirs: seq<Direction>): seq<Direction> { if dirs == [] then [] else dirs[1..] }

  /** XOR with the direction's mask, `0x00` or `0xFF`, over a whole byte string. */
  function Masked(s: seq<Byte>, d: Direction): (r: seq<Byte>)
    ensures |r| == |s|
    ensures forall i :: 0 <= i < |s| ==> r[i] == if d.Asc? then s[i] else 255 - s[i]
  {
    if d.Asc? then s else Complement(s)
  }

  lemma {:induction false} MaskedConcat(s: seq<Byte>, t: seq<Byte>, d: Direction)
    ensures Masked(s + t, d) == Masked(s, d) + Masked(t, d)
  {
  }

  lemma {:induction false} MaskedTwice(s: seq<Byte>, d: Direction)
    ensures Masked(Masked(s, d), d) == s
  {
  }

  // ----- Integers

  /** Minimal number of big-endian bytes. */
  function MagnitudeLen(n: nat): nat {
    if n == 0 then 0 else 1 + MagnitudeLen(n / 256)
  }

  /** It is the least width that holds `n`: no shorter one does. */
  lemma {:induction false} MagnitudeLenMinimal(n: nat, k: nat)
    ensures n < Pow256(k) <==> MagnitudeLen(n) <= k
  {
    if n > 0 && k > 0 { MagnitudeLenMinimal(n / 256, k - 1); }
  }

  /** The highest set bit's position, counted from one: `64 - leading_zeros`. */
  function BitLength(n: nat): nat {
    if n == 0 then 0 else 1 + BitLength(n / 2)
  }

  function Pow2(n: nat): nat { if n == 0 then 1 else 2 * Pow2(n - 1) }

  lemma {:induction false} BitLengthBound(n: nat, k: nat)
    ensures BitLength(n) <= k <==> n < Pow2(k)
  {
    if n > 0 && k > 0 { BitLengthBound(n / 2, k - 1); }
    if k > 0 { BitLengthBound(0, k - 1); }
  }

  lemma {:induction false} Pow2Bytes(k: nat)
    ensures Pow2(8 * k) == Pow256(k)
  {
    if k > 0 {
      Pow2Bytes(k - 1);
      var p := 8 * (k - 1);
      assert Pow2(p + 8) == 2 * Pow2(p + 7) && Pow2(p + 7) == 2 * Pow2(p + 6) && Pow2(p + 6) == 2 * Pow2(p + 5)
          && Pow2(p + 5) == 2 * Pow2(p + 4) && Pow2(p + 4) == 2 * Pow2(p + 3) && Pow2(p + 3) == 2 * Pow2(p + 2)
          && Pow2(p + 2) == 2 * Pow2(p + 1) && Pow2(p + 1) == 2 * Pow2(p);
    }
  }

  lemma {:induction false} BytesHoldBits(n: nat, k: nat)
    ensures MagnitudeLen(n) <= k <==> BitLength(n) <= 8 * k
  {
    MagnitudeLenMinimal(n, k);
    BitLengthBound(n, 8 * k);
    Pow2Bytes(k);
  }

  /** The width the encoder computes from the count of leading zero bits. */
  lemma {:induction false} MagnitudeLenIsLeadingZeros(n: UInt64)
    ensures BitLength(n) <= 64 && MagnitudeLen(n) == 8 - (64 - BitLength(n)) / 8
  {
    var m := MagnitudeLen(n);
    BytesHoldBits(n, m);
    if m > 0 { BytesHoldBits(n, m - 1); }
    BytesHoldBits(n, 8);
    MagnitudeLenMinimal(n, 8);
    Pow256Words();
  }

  function MagnitudeBytes(n: UInt64): (r: seq<Byte>)
    ensures |r| == MagnitudeLen(n) <= 8
  {
    MagnitudeLenMinimal(n, MagnitudeLen(n)); MagnitudeLenMinimal(n, 8); Pow256Words();
    BigEndian(n, MagnitudeLen(n))
  }

  function IntBytes(negative: bool, magnitude: UInt64): seq<Byte> {
    if magnitude == 0 then [INT_ZERO]
    else
      var be := MagnitudeBytes(magnitude);
      if negative then [INT_ZERO - |be|] + Complement(be) else [INT_ZERO + |be|] + be
  }

  function Magnitude(n: int): nat { if n < 0 then -n else n }

  predicate IsWide(n: int) { I64_MIN <= n <= U64_MAX }

  function Integer(n: int): seq<Byte>
    requires IsWide(n)
  {
    IntBytes(n < 0, Magnitude(n))
  }

  /** A shorter magnitude is a smaller one. */
  lemma {:induction false} MagnitudeLenMonotone(a: UInt64, b: UInt64)
    requires MagnitudeLen(a) < MagnitudeLen(b)
    ensures a < b
  {
    MagnitudeLenMinimal(a, MagnitudeLen(a));
    MagnitudeLenMinimal(b, MagnitudeLen(a));
  }

  lemma {:induction false} MagnitudeBytesOrder(a: UInt64, b: UInt64)
    requires |MagnitudeBytes(a)| == |MagnitudeBytes(b)|
    ensures Realises(CompareInts(a, b), MagnitudeBytes(a), MagnitudeBytes(b))
  {
    MagnitudeLenMinimal(a, MagnitudeLen(a));
    MagnitudeLenMinimal(b, MagnitudeLen(b));
    BigEndianOrder(a, b, MagnitudeLen(a));
  }

  lemma {:induction false} PositiveOrder(a: UInt64, b: UInt64)
    requires 0 < a && 0 < b
    ensures Realises(CompareInts(a, b), IntBytes(false, a), IntBytes(false, b))
  {
    hide MagnitudeBytes, MagnitudeLen;
    var x, y := MagnitudeBytes(a), MagnitudeBytes(b);
    if |x| == |y| { MagnitudeBytesOrder(a, b); }
    else if |x| < |y| { MagnitudeLenMonotone(a, b); } else { MagnitudeLenMonotone(b, a); }
    RealisesByte(INT_ZERO + |x|, INT_ZERO + |y|);
    RealisesThen(CompareInts(|x|, |y|), [INT_ZERO + |x|], [INT_ZERO + |y|], CompareInts(a, b), x, y);
  }

  lemma {:induction false} NegativeOrder(a: UInt64, b: UInt64)
    requires 0 < a && 0 < b
    ensures Realises(CompareInts(b, a), IntBytes(true, a), IntBytes(true, b))
  {
    hide MagnitudeBytes, MagnitudeLen;
    var x, y := MagnitudeBytes(a), MagnitudeBytes(b);
    if |x| == |y| { MagnitudeBytesOrder(a, b); RealisesComplement(CompareInts(a, b), x, y); }
    else if |x| < |y| { MagnitudeLenMonotone(a, b); } else { MagnitudeLenMonotone(b, a); }
    RealisesByte(INT_ZERO - |x|, INT_ZERO - |y|);
    RealisesThen(CompareInts(|y|, |x|), [INT_ZERO - |x|], [INT_ZERO - |y|], CompareInts(b, a), Complement(x), Complement(y));
  }

  lemma {:induction false} MagnitudeLenPositive(n: UInt64)
    requires n > 0
    ensures MagnitudeLen(n) > 0
  {
    MagnitudeLenMinimal(n, 0);
  }

  lemma {:induction false} IntegerCode(n: int)
    requires IsWide(n)
    ensures |Integer(n)| > 0 && INT_MIN <= Integer(n)[0] <= INT_MAX
    ensures CompareInts(Integer(n)[0], INT_ZERO) == CompareInts(n, 0)
  {
    if n != 0 { MagnitudeLenPositive(Magnitude(n)); }
  }

  /** Signed and unsigned integers interleave numerically. */
  lemma {:induction false} IntegerOrder(a: int, b: int)
    requires IsWide(a) && IsWide(b)
    ensures Realises(CompareInts(a, b), Integer(a), Integer(b))
  {
    hide IntBytes;
    IntegerCode(a);
    IntegerCode(b);
    if a != 0 && b != 0 && (a < 0) == (b < 0) {
      if a < 0 { NegativeOrder(-a, -b); } else { PositiveOrder(a, b); }
    } else if a != b {
      // The code bytes alone decide.
      FirstByteDecides(Integer(a), Integer(b));
    }
  }

  // ----- Byte strings

  function EscapedByte(b: Byte): seq<Byte> { if b == NUL then [NUL, ESCAPE] else [b] }

  function Escaped(s: seq<Byte>): seq<Byte> {
    if s == [] then [] else EscapedByte(s[0]) + Escaped(s[1..])
  }

  function Terminated(s: seq<Byte>): seq<Byte> { Escaped(s) + [NUL, NUL] }

  lemma {:induction false} EscapeOrder(a: Byte, b: Byte)
    ensures Realises(CompareInts(a, b), EscapedByte(a), EscapedByte(b))
  {
    RealisesByte(a, b);
    var x := EscapedByte(a);
    var y := EscapedByte(b);
    assert x == [a] + x[1..] && y == [b] + y[1..];
    RealisesThen(CompareInts(a, b), [a], [b], Equal, x[1..], y[1..]);
  }

  lemma {:induction false} TerminatorIsLeast(s: seq<Byte>)
    requires s != []
    ensures Below([NUL, NUL], Terminated(s))
  {
    var t := Terminated(s);
    assert DiffersAt([NUL, NUL], t, if s[0] == NUL then 1 else 0);
  }

  /** Zero-escaping keeps the lexicographic order, by a byte inside both. */
  lemma {:induction false} TerminatedOrder(a: seq<Byte>, b: seq<Byte>)
    ensures Realises(Lex(a, b), Terminated(a), Terminated(b))
    decreases |a|
  {
    if a == [] || b == [] {
      assert Terminated([]) == [NUL, NUL];
      if a != [] { TerminatorIsLeast(a); }
      if b != [] { TerminatorIsLeast(b); }
    } else {
      TerminatedOrder(a[1..], b[1..]);
      EscapeOrder(a[0], b[0]);
      var x := EscapedByte(a[0]);
      var y := EscapedByte(b[0]);
      assert Terminated(a) == x + Terminated(a[1..]);
      assert Terminated(b) == y + Terminated(b[1..]);
      RealisesThen(CompareInts(a[0], b[0]), x, y, Lex(a[1..], b[1..]), Terminated(a[1..]), Terminated(b[1..]));
    }
  }

  // ----- Floats

  function CanonicalNan(f: FloatFormat, bits: nat): (b: nat)
    requires IsFormat(f)
    ensures bits < 2 * f.half ==> b < 2 * f.half
  {
    if IsNan(f, bits) then f.nan else bits
  }

  /** Flip the sign bit of a positive, invert a negative. */
  function ToOrdered(f: FloatFormat, bits: nat): (o: nat)
    requires IsFormat(f) && bits < 2 * f.half
    ensures o < 2 * f.half
  {
    var b := CanonicalNan(f, bits);
    if b < f.half then b + f.half else 2 * f.half - 1 - b
  }

  function FromOrdered(f: FloatFormat, o: nat): (bits: nat)
    requires o < 2 * f.half
    ensures bits < 2 * f.half
  {
    if o < f.half then 2 * f.half - 1 - o else o - f.half
  }

  /** The unsigned order of the flipped patterns is the float order, NaN last. */
  lemma {:induction false} FloatOrder(f: FloatFormat, a: nat, b: nat)
    requires IsFormat(f) && a < 2 * f.half && b < 2 * f.half
    ensures CompareInts(ToOrdered(f, a), ToOrdered(f, b)) == CompareFloats(f, a, b)
  {
  }

  lemma {:induction false} FloatRoundTrip(f: FloatFormat, bits: nat)
    requires IsFormat(f) && bits < 2 * f.half
    ensures FromOrdered(f, ToOrdered(f, bits)) == CanonicalNan(f, bits)
    ensures CompareFloats(f, bits, CanonicalNan(f, bits)) == Equal
  {
  }

  function Double(bits: UInt64): (r: seq<Byte>)
    ensures |r| == 8
  {
    Pow256Words();
    BigEndian(ToOrdered(DOUBLE, bits), 8)
  }

  function Single(bits: UInt32): (r: seq<Byte>)
    ensures |r| == 4
  {
    Pow256Words();
    BigEndian(ToOrdered(SINGLE, bits), 4)
  }

  lemma {:induction false} Pow256Words()
    ensures Pow256(4) == U32_MAX + 1 && Pow256(8) == U64_MAX + 1
  {
    assert Pow256(2) == 65536;
    assert Pow256(4) == 256 * (256 * Pow256(2));
    assert Pow256(6) == 256 * (256 * Pow256(4));
    assert Pow256(8) == 256 * (256 * Pow256(6));
  }

  function Singles(s: seq<UInt32>): (r: seq<Byte>)
    ensures |r| == 4 * |s|
  {
    if s == [] then [] else Single(s[0]) + Singles(s[1..])
  }

  /** The count that is written, and with it how many elements are. */
  function VectorCount(s: seq<UInt32>): (n: UInt32)
    ensures n <= |s|
  {
    if |s| <= U32_MAX then |s| else U32_MAX
  }

  function Count(n: UInt32): (r: seq<Byte>)
    ensures |r| == 4
  {
    Pow256Words();
    BigEndian(n, 4)
  }

  lemma {:induction false} DoubleOrder(a: UInt64, b: UInt64)
    ensures Realises(CompareFloats(DOUBLE, a, b), Double(a), Double(b))
  {
    Pow256Words();
    FloatOrder(DOUBLE, a, b);
    BigEndianOrder(ToOrdered(DOUBLE, a), ToOrdered(DOUBLE, b), 8);
  }

  lemma {:induction false} SingleOrder(a: UInt32, b: UInt32)
    ensures Realises(CompareFloats(SINGLE, a, b), Single(a), Single(b))
  {
    Pow256Words();
    FloatOrder(SINGLE, a, b);
    BigEndianOrder(ToOrdered(SINGLE, a), ToOrdered(SINGLE, b), 4);
  }

  lemma {:induction false} SinglesOrder(a: seq<UInt32>, b: seq<UInt32>)
    requires |a| == |b|
    ensures Realises(CompareSingles(a, b), Singles(a), Singles(b))
  {
    if a != [] {
      SingleOrder(a[0], b[0]);
      SinglesOrder(a[1..], b[1..]);
      RealisesThen(CompareFloats(SINGLE, a[0], b[0]), Single(a[0]), Single(b[0]),
                   CompareSingles(a[1..], b[1..]), Singles(a[1..]), Singles(b[1..]));
    }
  }

  function VectorBody(s: seq<UInt32>): seq<Byte> {
    Count(VectorCount(s)) + Singles(s[..VectorCount(s)])
  }

  lemma {:induction false} VectorOrder(a: seq<UInt32>, b: seq<UInt32>)
    requires |a| <= U32_MAX && |b| <= U32_MAX
    ensures Realises(CompareInts(|a|, |b|).Then(CompareSingles(a, b)), VectorBody(a), VectorBody(b))
  {
    Pow256Words();
    BigEndianOrder(|a|, |b|, 4);
    assert a[..|a|] == a && b[..|b|] == b;
    if |a| == |b| { SinglesOrder(a, b); }
    RealisesThen(CompareInts(|a|, |b|), Count(|a|), Count(|b|), CompareSingles(a, b), Singles(a), Singles(b));
  }

  // ----- Elements

  /** One element's bytes, ascending: a type code and a self-delimiting payload. */
  function Element(v: Value): (r: seq<Byte>)
    ensures |r| > 0
    decreases v, 1
  {
    match v
    case Null => [NULL]
    case Bool(b) => [if b then TRUE else FALSE]
    case Bytes(s) => [BYTES] + Terminated(s)
    case Str(s) => [STR] + Terminated(s)
    case I64(n) => Integer(n)
    case U64(n) => Integer(n)
    case Decimal(n) => [DECIMAL] + Integer(n)
    case F64(bits) => [F64_CODE] + Double(bits)
    case Vector(s) => [VECTOR] + VectorBody(s)
    case Uuid(raw) => [UUID] + raw
    case Array(es) => [ARRAY] + Elements(es) + [NUL]
  }

  function Elements(vs: seq<Value>): seq<Byte>
    decreases vs, 0
  {
    if vs == [] then [] else Element(vs[0]) + Elements(vs[1..])
  }

  /** The type code: never the array terminator, and ordered as the ranks are. */
  lemma {:induction false} CodeOfRank(v: Value)
    ensures Element(v)[0] > NUL
    ensures match Rank(v)
            case 0 => Element(v)[0] == NULL
            case 1 => FALSE <= Element(v)[0] <= TRUE
            case 2 => Element(v)[0] == BYTES
            case 3 => Element(v)[0] == STR
            case 4 => INT_MIN <= Element(v)[0] <= INT_MAX
            case 5 => Element(v)[0] == DECIMAL
            case 6 => Element(v)[0] == F64_CODE
            case 7 => Element(v)[0] == UUID
            case 8 => Element(v)[0] == VECTOR
            case _ => Element(v)[0] == ARRAY
  {
    if IsInteger(v) { IntegerCode(AsInt(v)); }
  }

  lemma {:induction false} RankDecides(v: Value, w: Value)
    requires Rank(v) != Rank(w)
    ensures Realises(CompareInts(Rank(v), Rank(w)), Element(v), Element(w))
  {
    CodeOfRank(v);
    CodeOfRank(w);
    FirstByteDecides(Element(v), Element(w));
  }

  lemma {:induction false} Tagged(code: Byte, o: Ordering, x: seq<Byte>, y: seq<Byte>)
    requires Realises(o, x, y)
    ensures Realises(o, [code] + x, [code] + y)
  {
    RealisesThen(Equal, [code], [code], o, x, y);
  }

  /** The law the record layer rests on, one element at a time: the encodings of two values
      differ at a byte inside both exactly when the values differ, and in the same direction. */
  lemma {:induction false} ElementOrder(v: Value, w: Value)
    requires Fits(v) && Fits(w)
    ensures Realises(Compare(v, w), Element(v), Element(w))
    decreases v, 1
  {
    if Rank(v) != Rank(w) {
      RankDecides(v, w);
    } else {
      match v
      case Null =>
      case Bool(a) => RealisesByte(if a then TRUE else FALSE, if w.flag then TRUE else FALSE);
      case Bytes(a) => TerminatedOrder(a, w.bytes); Tagged(BYTES, Lex(a, w.bytes), Terminated(a), Terminated(w.bytes));
      case Str(a) => TerminatedOrder(a, w.text); Tagged(STR, Lex(a, w.text), Terminated(a), Terminated(w.text));
      case I64(_) => IntegerOrder(AsInt(v), AsInt(w));
      case U64(_) => IntegerOrder(AsInt(v), AsInt(w));
      case Decimal(a) => IntegerOrder(a, w.units); Tagged(DECIMAL, CompareInts(a, w.units), Integer(a), Integer(w.units));
      case F64(a) => DoubleOrder(a, w.bits); Tagged(F64_CODE, CompareFloats(DOUBLE, a, w.bits), Double(a), Double(w.bits));
      case Uuid(a) => FixedWidthOrder(a, w.raw); Tagged(UUID, Lex(a, w.raw), a, w.raw);
      case Vector(a) =>
        VectorOrder(a, w.singles);
        Tagged(VECTOR, CompareInts(|a|, |w.singles|).Then(CompareSingles(a, w.singles)), VectorBody(a), VectorBody(w.singles));
      case Array(a) =>
        ElementsOrder(a, w.elements);
        Tagged(ARRAY, CompareLists(a, w.elements), Elements(a) + [NUL], Elements(w.elements) + [NUL]);
        assert Element(v) == [ARRAY] + (Elements(a) + [NUL]);
        assert Element(w) == [ARRAY] + (Elements(w.elements) + [NUL]);
    }
  }

  lemma {:induction false} FixedWidthOrder(a: seq<Byte>, b: seq<Byte>)
    requires |a| == |b|
    ensures Realises(Lex(a, b), a, b)
  {
    if a != [] {
      FixedWidthOrder(a[1..], b[1..]);
      RealisesByte(a[0], b[0]);
      RealisesThen(CompareInts(a[0], b[0]), [a[0]], [b[0]], Lex(a[1..], b[1..]), a[1..], b[1..]);
      assert a == [a[0]] + a[1..] && b == [b[0]] + b[1..];
    }
  }

  /** A terminated list sorts element-wise with the shorter list first. */
  lemma {:induction false} ElementsOrder(a: seq<Value>, b: seq<Value>)
    requires AllFit(a) && AllFit(b)
    ensures Realises(CompareLists(a, b), Elements(a) + [NUL], Elements(b) + [NUL])
    decreases a, 0
  {
    if a == [] && b == [] {
    } else if a == [] {
      CodeOfRank(b[0]);
      FirstByteDecides(Elements(a) + [NUL], Elements(b) + [NUL]);
    } else if b == [] {
      CodeOfRank(a[0]);
      FirstByteDecides(Elements(a) + [NUL], Elements(b) + [NUL]);
    } else {
      ElementOrder(a[0], b[0]);
      ElementsOrder(a[1..], b[1..]);
      RealisesThen(Compare(a[0], b[0]), Element(a[0]), Element(b[0]),
                   CompareLists(a[1..], b[1..]), Elements(a[1..]) + [NUL], Elements(b[1..]) + [NUL]);
      assert Elements(a) + [NUL] == Element(a[0]) + (Elements(a[1..]) + [NUL]);
      assert Elements(b) + [NUL] == Element(b[0]) + (Elements(b[1..]) + [NUL]);
    }
  }
}
