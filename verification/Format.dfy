/** The format on disk, in its own numbers: what other builds have written must still be read. */
module Format {
  import opened ByteStrings
  import opened Values
  import opened Encoding

  /** The type code each value opens with. */
  lemma {:induction false} TypeCodes(v: Value)
    ensures var e := Element(v);
            match v
            case Null => e == [0x01]
            case Bool(flag) => e == [if flag then 0x03 else 0x02]
            case Bytes(s) => e[0] == 0x04 && e[|e| - 2..] == [0x00, 0x00]
            case Str(s) => e[0] == 0x05 && e[|e| - 2..] == [0x00, 0x00]
            case I64(_) => 0x0D <= e[0] <= 0x1D
            case U64(_) => 0x15 <= e[0] <= 0x1D
            case Decimal(_) => e[0] == 0x1E && 0x0D <= e[1] <= 0x1D
            case F64(_) => e[0] == 0x21 && |e| == 9
            case Uuid(raw) => e == [0x22] + raw
            case Vector(s) => e[0] == 0x23 && |e| == 5 + 4 * VectorCount(s)
            case Array(_) => e[0] == 0x24 && e[|e| - 1] == 0x00
  {
    hide Integer, Terminated, VectorBody, Elements, Double, FromBigEndian, Pow256, Complement;
    match v
    case Bytes(s) => TerminatorLast(s); TagThen(BYTES, Terminated(s));
    case Str(s) => TerminatorLast(s); TagThen(STR, Terminated(s));
    case I64(n) => IntegerLayout(n);
    case U64(n) => IntegerLayout(n);
    case Decimal(n) => IntegerLayout(n);
    case Vector(s) => VectorLength(s);
    case F64(bits) => DoubleLength(bits);
    case _ =>
  }

  lemma {:induction false} TagThen(code: Byte, body: seq<Byte>)
    requires |body| >= 2
    ensures var e := [code] + body; e[0] == code && e[|e| - 2..] == body[|body| - 2..]
  {
  }

  lemma {:induction false} TerminatorLast(s: seq<Byte>)
    ensures |Terminated(s)| >= 2 && Terminated(s)[|Terminated(s)| - 2..] == [0x00, 0x00]
  {
  }

  lemma {:induction false} VectorLength(s: seq<UInt32>)
    ensures |VectorBody(s)| == 4 + 4 * VectorCount(s)
  {
  }

  lemma {:induction false} DoubleLength(bits: UInt64)
    ensures |Double(bits)| == 8
  {
  }

  lemma {:induction false} MagnitudeLayout(m: UInt64)
    requires m > 0
    ensures var be := MagnitudeBytes(m); 1 <= |be| <= 8 && FromBigEndian(be) == m && m >= Pow256(|be| - 1)
  {
    MagnitudeLenMinimal(m, MagnitudeLen(m));
    MagnitudeLenMinimal(m, 0);
    MagnitudeLenMinimal(m, MagnitudeLen(m) - 1);
    BigEndianRoundTrip(m, MagnitudeLen(m));
    assert Pow256(0) == 1;
    hide MagnitudeLen, BigEndian, FromBigEndian, Pow256;
  }

  /** An integer's code is 0x15 and the number of its bytes, up for a positive one and down for a negative;
      they spell the magnitude, of a negative one complemented; and no shorter spelling would do. */
  lemma {:induction false} IntegerLayout(n: int)
    requires IsWide(n)
    ensures var e := Integer(n); var k := |e| - 1;
            && 0 <= k <= 8 && e[0] == (if n < 0 then 0x15 - k else 0x15 + k)
            && FromBigEndian(if n < 0 then Complement(e[1..]) else e[1..]) == Magnitude(n)
            && (k == 0 <==> n == 0) && (k > 0 ==> Magnitude(n) >= Pow256(k - 1))
  {
    hide MagnitudeBytes, MagnitudeLen, Pow256, Complement;
    var m := Magnitude(n);
    if m > 0 {
      var be := MagnitudeBytes(m);
      MagnitudeLayout(m);
      ComplementTwice(be);
      assert Integer(n)[1..] == if n < 0 then Complement(be) else be;
      hide FromBigEndian;
    }
  }

  lemma {:induction false} EscapedAppend(s: seq<Byte>, t: seq<Byte>)
    ensures Escaped(s + t) == Escaped(s) + Escaped(t)
  {
    hide EscapedByte;
    if s == [] {
      assert s + t == t;
    } else {
      EscapedAppend(s[1..], t);
      assert (s + t)[1..] == s[1..] + t;
    }
  }

  /** A byte string stands as it is but for its zeros, each of which is followed by 0xFF. */
  lemma {:induction false} EscapedLayout(s: seq<Byte>, b: Byte)
    ensures Terminated([]) == [0x00, 0x00]
    ensures Terminated(s + [b]) == Escaped(s) + (if b == 0x00 then [0x00, 0xFF] else [b]) + [0x00, 0x00]
  {
    EscapedAppend(s, [b]);
    assert Escaped([b]) == EscapedByte(b) by { assert [b][1..] == []; }
    hide Escaped;
  }
}
