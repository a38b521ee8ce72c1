/** The closed value model of the tuple codec and its total order. */
module Values {
  import opened ByteStrings

  const I64_MIN: int := -0x8000_0000_0000_0000
  const I64_MAX: int := 0x7FFF_FFFF_FFFF_FFFF
  const U64_MAX: int := 0xFFFF_FFFF_FFFF_FFFF
  const U32_MAX: int := 0xFFFF_FFFF

  type Int64 = i: int | I64_MIN <= i <= I64_MAX
  type UInt64 = u: int | 0 <= u <= U64_MAX
  type UInt32 = u: int | 0 <= u <= U32_MAX
  type UuidBytes = s: seq<Byte> | |s| == 16 witness seq(16, _ => 0)
  type Utf8 = s: seq<Byte> | ValidUtf8(s)

  /** A tuple element. Floats are held as their IEEE-754 bit patterns. */
  datatype Value =
    | Null
    | Bool(flag: bool)
    | Bytes(bytes: seq<Byte>)
    | Str(text: Utf8)
    | I64(signed: Int64)
    | U64(unsigned: UInt64)
    | F64(bits: UInt64)
    | Decimal(units: Int64)
    | Uuid(raw: UuidBytes)
    | Vector(singles: seq<UInt32>)
    | Array(elements: seq<Value>)

  datatype ValueType =
    TBool | TBytes | TStr | TI64 | TU64 | TF64 | TDecimal | TUuid | TVector | TArray

  // ----- UTF-8

  predicate Continuation(b: Byte) { 0x80 <= b <= 0xBF }

  /** The length of the well-formed sequence `s` opens with, zero if it opens with none. */
  function Utf8Width(s: seq<Byte>): (n: nat)
    requires s != []
    ensures n <= |s| && n <= 4
  {
    var b := s[0];
    if b <= 0x7F then 1
    else if 0xC2 <= b <= 0xDF && |s| >= 2 && Continuation(s[1]) then 2
    else if |s| >= 3 && Continuation(s[1]) && Continuation(s[2])
         && ((0xE0 < b <= 0xEF && b != 0xED) || (b == 0xE0 && s[1] >= 0xA0) || (b == 0xED && s[1] <= 0x9F)) then 3
    else if |s| >= 4 && Continuation(s[1]) && Continuation(s[2]) && Continuation(s[3])
         && (0xF0 < b < 0xF4 || (b == 0xF0 && s[1] >= 0x90) || (b == 0xF4 && s[1] <= 0x8F)) then 4
    else 0
  }

  predicate ValidUtf8(s: seq<Byte>)
    decreases |s|
  {
    s == [] || (Utf8Width(s) > 0 && ValidUtf8(s[Utf8Width(s)..]))
  }

  // ----- IEEE-754 bit patterns

  /** `half` is the sign bit, `infinity` and `nan` the positive infinity and the canonical NaN. */
  datatype FloatFormat = FloatFormat(half: nat, infinity: nat, nan: nat)

  const DOUBLE: FloatFormat := FloatFormat(0x8000_0000_0000_0000, 0x7FF0_0000_0000_0000, 0x7FF8_0000_0000_0000)
  const SINGLE: FloatFormat := FloatFormat(0x8000_0000, 0x7F80_0000, 0x7FC0_0000)

  predicate IsFormat(f: FloatFormat) { f.infinity < f.nan < f.half }

  predicate IsNan(f: FloatFormat, bits: nat)
    requires IsFormat(f)
  {
    (if bits < f.half then bits else bits - f.half) > f.infinity
  }

  /** The signed integer whose order is IEEE totalOrder: negative patterns count down from -1. */
  function TotalOrderKey(f: FloatFormat, bits: nat): int {
    if bits < f.half then bits else f.half - 1 - bits
  }

  /** All NaNs are one value above every number; the rest follow totalOrder. */
  function CompareFloats(f: FloatFormat, a: nat, b: nat): Ordering
    requires IsFormat(f)
  {
    match (IsNan(f, a), IsNan(f, b))
    case (true, true) => Equal
    case (true, false) => Greater
    case (false, true) => Less
    case (false, false) => CompareInts(TotalOrderKey(f, a), TotalOrderKey(f, b))
  }

  function CompareSingles(a: seq<UInt32>, b: seq<UInt32>): Ordering {
    if a == [] || b == [] then Equal
    else CompareFloats(SINGLE, a[0], b[0]).Then(CompareSingles(a[1..], b[1..]))
  }

  // ----- The total order

  function Rank(v: Value): nat {
    match v
    case Null => 0
    case Bool(_) => 1
    case Bytes(_) => 2
    case Str(_) => 3
    case I64(_) => 4
    case U64(_) => 4
    case Decimal(_) => 5
    case F64(_) => 6
    case Uuid(_) => 7
    case Vector(_) => 8
    case Array(_) => 9
  }

  predicate IsInteger(v: Value) { v.I64? || v.U64? }

  function AsInt(v: Value): int
    requires IsInteger(v)
  {
    if v.I64? then v.signed else v.unsigned
  }

  function CompareBools(a: bool, b: bool): Ordering {
    if a == b then Equal else if b then Less else Greater
  }

  /** `Ord for Value`. */
  function Compare(v: Value, w: Value): Ordering
    decreases v, 1
  {
    var rank := CompareInts(Rank(v), Rank(w));
    if rank != Equal then rank
    else match v
         case Null => Equal
         case Bool(a) => CompareBools(a, w.flag)
         case Bytes(a) => Lex(a, w.bytes)
         case Str(a) => Lex(a, w.text)
         case I64(_) => CompareInts(AsInt(v), AsInt(w))
         case U64(_) => CompareInts(AsInt(v), AsInt(w))
         case Decimal(a) => CompareInts(a, w.units)
         case F64(a) => CompareFloats(DOUBLE, a, w.bits)
         case Uuid(a) => Lex(a, w.raw)
         case Vector(a) => CompareInts(|a|, |w.singles|).Then(CompareSingles(a, w.singles))
         case Array(a) => CompareLists(a, w.elements)
  }

  /** Element-wise, a shorter list first. */
  function CompareLists(a: seq<Value>, b: seq<Value>): Ordering
    decreases a, 0
  {
    if a == [] && b == [] then Equal
    else if a == [] then Less
    else if b == [] then Greater
    else Compare(a[0], b[0]).Then(CompareLists(a[1..], b[1..]))
  }

  /** A vector's count is written as a `u32`, so this many elements is all it can hold. */
  predicate Fits(v: Value) {
    match v
    case Vector(s) => |s| <= U32_MAX
    case Array(es) => forall e | e in es :: Fits(e)
    case _ => true
  }

  /** No array inside an array. */
  predicate Flat(v: Value) {
    v.Array? ==> forall e | e in v.elements :: !e.Array?
  }

  predicate Storable(v: Value) { Fits(v) && Flat(v) }

  ghost predicate AllFit(vs: seq<Value>) { forall v | v in vs :: Fits(v) }

  lemma {:induction false} AllFitCons(vs: seq<Value>)
    requires vs != []
    ensures AllFit(vs) <==> Fits(vs[0]) && AllFit(vs[1..])
  {
    assert forall v :: v in vs <==> v == vs[0] || v in vs[1..];
  }
}
