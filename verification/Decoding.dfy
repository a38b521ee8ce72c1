/** What the tuple reader computes, as functions of the buffer and the cursor.

    The buffer is taken with the direction's mask already removed; a masked read of `buf` is
    an unmasked read of `Masked(buf, d)`. */
module Decoding {
  import opened ByteStrings
  import opened Values
  import opened Encoding

  datatype TupleError =
    | Truncated(offset: nat, needed: nat)
    | UnknownTypeCode(offset: nat, code: Byte)
    | TypeMismatch(offset: nat, expected: ValueType)
    | IntegerOutOfRange(offset: nat, value: int, target: ValueType)
    | InvalidUtf8(offset: nat)
    | MalformedEscape(offset: nat)
    | NonCanonicalInteger(offset: nat)
    | TrailingBytes(decoded: nat, remaining: nat)

  /** A step of the reader: its result, and where it leaves the cursor either way. */
  datatype Scan<+T> = Done(value: T, next: nat) | Fail(error: TupleError, next: nat) {
    function Forward<U>(): Scan<U>
      requires Fail?
    {
      Fail(error, next)
    }
  }

  predicate Within<T>(r: Scan<T>, buf: seq<Byte>, pos: nat) { pos <= r.next <= |buf| }

  function NextByte(buf: seq<Byte>, pos: nat): (r: Scan<Byte>)
    requires pos <= |buf|
    ensures Within(r, buf, pos)
  {
    if pos < |buf| then Done(buf[pos], pos + 1) else Fail(Truncated(pos, 1), pos)
  }

  function TakeBytes(buf: seq<Byte>, pos: nat, n: nat): (r: Scan<seq<Byte>>)
    requires pos <= |buf|
    ensures Within(r, buf, pos)
  {
    if pos + n <= |buf| then Done(buf[pos..pos + n], pos + n) else Fail(Truncated(pos, pos + n - |buf|), pos)
  }

  function EscapedFrom(buf: seq<Byte>, pos: nat, out: seq<Byte>): (r: Scan<seq<Byte>>)
    requires pos <= |buf|
    ensures Within(r, buf, pos)
    decreases |buf| - pos
  {
    if pos == |buf| then Fail(Truncated(pos, 1), pos)
    else if buf[pos] != NUL then EscapedFrom(buf, pos + 1, out + [buf[pos]])
    else if pos + 1 == |buf| then Fail(Truncated(pos + 1, 1), pos + 1)
    else if buf[pos + 1] == NUL then Done(out, pos + 2)
    else if buf[pos + 1] == ESCAPE then EscapedFrom(buf, pos + 2, out + [NUL])
    else Fail(MalformedEscape(pos), pos + 2)
  }

  predicate IsIntCode(code: Byte) { INT_MIN <= code <= INT_MAX }

  function IntLen(code: Byte): nat { if code > INT_ZERO then code - INT_ZERO else INT_ZERO - code }

  function MagnitudeAt(buf: seq<Byte>, pos: nat, len: nat, negative: bool): (m: int)
    requires pos + len <= |buf|
    ensures 0 <= m < Pow256(len)
  {
    FromBigEndian(if negative then Complement(buf[pos..pos + len]) else buf[pos..pos + len])
  }

  lemma {:induction false} Pow256Monotone(a: nat, b: nat)
    requires a <= b
    ensures Pow256(a) <= Pow256(b)
  {
    if a < b { Pow256Monotone(a, b - 1); }
  }

  /** The widened integer behind `code`; non-minimal lengths are refused. */
  function IntBody(buf: seq<Byte>, pos: nat, code: Byte, start: nat): (r: Scan<int>)
    requires pos <= |buf| && IsIntCode(code)
    ensures Within(r, buf, pos)
    ensures r.Done? ==> -U64_MAX <= r.value <= U64_MAX
  {
    if pos + IntLen(code) > |buf| then Fail(Truncated(|buf|, 1), |buf|)
    else
      var len, negative := IntLen(code), code < INT_ZERO;
      var m := MagnitudeAt(buf, pos, len, negative);
      Pow256Monotone(len, 8); Pow256Words();
      if MagnitudeLen(m) != len then Fail(NonCanonicalInteger(start), pos + len)
      else Done(if negative then -m else m, pos + len)
  }

  predicate InI64(n: int) { I64_MIN <= n <= I64_MAX }

  function DecimalBody(buf: seq<Byte>, pos: nat, start: nat): (r: Scan<Value>)
    requires pos <= |buf|
    ensures Within(r, buf, pos)
  {
    if pos == |buf| then Fail(Truncated(pos, 1), pos)
    else if !IsIntCode(buf[pos]) then Fail(UnknownTypeCode(start, buf[pos]), pos + 1)
    else
      var r := IntBody(buf, pos + 1, buf[pos], start);
      if r.Fail? then r.Forward()
      else if InI64(r.value) then Done(Decimal(r.value), r.next)
      else Fail(UnknownTypeCode(start, buf[pos]), r.next)
  }

  function WordAt(buf: seq<Byte>, pos: nat): (w: UInt32)
    requires pos + 4 <= |buf|
  {
    Pow256Words();
    FromBigEndian(buf[pos..pos + 4])
  }

  function SinglesFrom(buf: seq<Byte>, pos: nat, count: nat, out: seq<UInt32>): (r: Scan<seq<UInt32>>)
    requires pos <= |buf|
    ensures Within(r, buf, pos)
    decreases count
  {
    if count == 0 then Done(out, pos)
    else if pos + 4 > |buf| then Fail(Truncated(pos, pos + 4 - |buf|), pos)
    else SinglesFrom(buf, pos + 4, count - 1, out + [FromOrdered(SINGLE, WordAt(buf, pos))])
  }

  function VectorFrom(buf: seq<Byte>, pos: nat): (r: Scan<seq<UInt32>>)
    requires pos <= |buf|
    ensures Within(r, buf, pos)
  {
    if pos + 4 > |buf| then Fail(Truncated(pos, pos + 4 - |buf|), pos)
    else SinglesFrom(buf, pos + 4, WordAt(buf, pos), [])
  }

  function DoubleFrom(buf: seq<Byte>, pos: nat): (r: Scan<UInt64>)
    requires pos <= |buf|
    ensures Within(r, buf, pos)
  {
    var raw := TakeBytes(buf, pos, 8);
    if raw.Fail? then raw.Forward()
    else
      Pow256Words();
      Done(FromOrdered(DOUBLE, FromBigEndian(raw.value)), raw.next)
  }

  /** A body other than null, an integer or an array. */
  function ScalarBody(buf: seq<Byte>, pos: nat, code: Byte, start: nat): (r: Scan<Value>)
    requires pos <= |buf|
    ensures Within(r, buf, pos)
  {
    if code == FALSE then Done(Bool(false), pos)
    else if code == TRUE then Done(Bool(true), pos)
    else if code == BYTES || code == STR then
      var r := EscapedFrom(buf, pos, []);
      if r.Fail? then r.Forward()
      else if code == BYTES then Done(Bytes(r.value), r.next)
      else if ValidUtf8(r.value) then Done(Str(r.value), r.next)
      else Fail(InvalidUtf8(start), r.next)
    else if code == DECIMAL then DecimalBody(buf, pos, start)
    else if code == F64_CODE then
      var r := DoubleFrom(buf, pos);
      if r.Fail? then r.Forward() else Done(F64(r.value), r.next)
    else if code == UUID then
      var r := TakeBytes(buf, pos, 16);
      if r.Fail? then r.Forward() else Done(Uuid(r.value), r.next)
    else if code == VECTOR then
      var r := VectorFrom(buf, pos);
      if r.Fail? then r.Forward() else Done(Vector(r.value), r.next)
    else Fail(UnknownTypeCode(start, code), pos)
  }

  function FitInt(n: int): Value
    requires -U64_MAX <= n <= U64_MAX
  {
    if InI64(n) then I64(n) else U64(Magnitude(n))
  }

  /** The element at `pos`, by its type code alone, if it is not an array. */
  function ReadPlain(buf: seq<Byte>, pos: nat): (r: Scan<Value>)
    requires pos <= |buf|
    ensures Within(r, buf, pos)
    ensures r.Done? ==> pos < r.next
  {
    if pos == |buf| then Fail(Truncated(pos, 1), pos)
    else if buf[pos] == NULL then Done(Null, pos + 1)
    else if IsIntCode(buf[pos]) then
      var r := IntBody(buf, pos + 1, buf[pos], pos);
      if r.Fail? then r.Forward() else Done(FitInt(r.value), r.next)
    else ScalarBody(buf, pos + 1, buf[pos], pos)
  }

  /** Elements until the terminator; an array inside the array is refused. */
  function ArrayFrom(buf: seq<Byte>, pos: nat, out: seq<Value>): (r: Scan<Value>)
    requires pos <= |buf|
    ensures Within(r, buf, pos)
    ensures r.Done? ==> r.value.Array?
    decreases |buf| - pos
  {
    if pos == |buf| then Fail(Truncated(pos, 1), pos)
    else if buf[pos] == NUL then Done(Array(out), pos + 1)
    else if buf[pos] == ARRAY then Fail(UnknownTypeCode(pos, ARRAY), pos + 1)
    else
      var r := ReadPlain(buf, pos);
      if r.Fail? then r else ArrayFrom(buf, r.next, out + [r.value])
  }

  /** `read_dynamic`: the element at `pos`, by its type code alone. */
  function ReadDynamic(buf: seq<Byte>, pos: nat): (r: Scan<Value>)
    requires pos <= |buf|
    ensures Within(r, buf, pos)
    ensures r.Done? ==> pos < r.next
  {
    if pos < |buf| && buf[pos] == ARRAY then ArrayFrom(buf, pos + 1, []) else ReadPlain(buf, pos)
  }

  function IntAs(n: int, start: nat, next: nat, target: ValueType): (r: Scan<Value>)
    requires -U64_MAX <= n <= U64_MAX
    ensures r.next == next
  {
    match target
    case TI64 => if InI64(n) then Done(I64(n), next) else Fail(IntegerOutOfRange(start, n, TI64), next)
    case TU64 => if 0 <= n then Done(U64(n), next) else Fail(IntegerOutOfRange(start, n, TU64), next)
    case _ => Fail(TypeMismatch(start, target), next)
  }

  predicate IsBodyCode(code: Byte) {
    FALSE <= code <= STR || code == DECIMAL || F64_CODE <= code <= ARRAY
  }

  function CodeType(code: Byte): ValueType
    requires IsBodyCode(code)
  {
    if code == FALSE || code == TRUE then TBool
    else if code == BYTES then TBytes
    else if code == STR then TStr
    else if code == DECIMAL then TDecimal
    else if code == F64_CODE then TF64
    else if code == UUID then TUuid
    else if code == VECTOR then TVector
    else TArray
  }

  /** `read`: the element at `pos`, which must be null or of type `expected`. */
  function Read(buf: seq<Byte>, pos: nat, expected: ValueType): (r: Scan<Value>)
    requires pos <= |buf|
    ensures Within(r, buf, pos)
    ensures r.Done? ==> pos < r.next
  {
    if pos == |buf| then Fail(Truncated(pos, 1), pos)
    else if buf[pos] == NULL then Done(Null, pos + 1)
    else if IsIntCode(buf[pos]) then
      var r := IntBody(buf, pos + 1, buf[pos], pos);
      if r.Fail? then r.Forward() else IntAs(r.value, pos, r.next, expected)
    else if !IsBodyCode(buf[pos]) then Fail(UnknownTypeCode(pos, buf[pos]), pos + 1)
    else if CodeType(buf[pos]) != expected then Fail(TypeMismatch(pos, expected), pos + 1)
    else ReadDynamic(buf, pos)
  }

  // ----- Skipping

  function Advance(buf: seq<Byte>, pos: nat, n: nat): (r: Scan<()>)
    requires pos <= |buf|
    ensures Within(r, buf, pos)
  {
    if pos + n <= |buf| then Done((), pos + n) else Fail(Truncated(pos, n - (|buf| - pos)), pos)
  }

  function SkipEscaped(buf: seq<Byte>, pos: nat): (r: Scan<()>)
    requires pos <= |buf|
    ensures Within(r, buf, pos)
    decreases |buf| - pos
  {
    if pos == |buf| then Fail(Truncated(pos, 1), pos)
    else if buf[pos] != NUL then SkipEscaped(buf, pos + 1)
    else if pos + 1 == |buf| then Fail(Truncated(pos + 1, 1), pos + 1)
    else if buf[pos + 1] == NUL then Done((), pos + 2)
    else if buf[pos + 1] == ESCAPE then SkipEscaped(buf, pos + 2)
    else Fail(MalformedEscape(pos), pos + 2)
  }

  function SkipPlain(buf: seq<Byte>, pos: nat): (r: Scan<()>)
    requires pos <= |buf|
    ensures Within(r, buf, pos)
    ensures r.Done? ==> pos < r.next
  {
    if pos == |buf| then Fail(Truncated(pos, 1), pos)
    else
      var code, body := buf[pos], pos + 1;
      if NULL <= code <= TRUE then Done((), body)
      else if IsIntCode(code) then Advance(buf, body, IntLen(code))
      else if code == BYTES || code == STR then SkipEscaped(buf, body)
      else if code == F64_CODE then Advance(buf, body, 8)
      else if code == DECIMAL then
        if body == |buf| then Fail(Truncated(body, 1), body)
        else if !IsIntCode(buf[body]) then Fail(UnknownTypeCode(pos, buf[body]), body + 1)
        else Advance(buf, body + 1, IntLen(buf[body]))
      else if code == UUID then Advance(buf, body, 16)
      else if code == VECTOR then
        if body + 4 > |buf| then Fail(Truncated(body, body + 4 - |buf|), body)
        else Advance(buf, body + 4, WordAt(buf, body) * 4)
      else Fail(UnknownTypeCode(pos, code), body)
  }

  function SkipArray(buf: seq<Byte>, pos: nat): (r: Scan<()>)
    requires pos <= |buf|
    ensures Within(r, buf, pos)
    decreases |buf| - pos
  {
    if pos == |buf| then Fail(Truncated(pos, 1), pos)
    else if buf[pos] == NUL then Done((), pos + 1)
    else if buf[pos] == ARRAY then Fail(UnknownTypeCode(pos, ARRAY), pos + 1)
    else
      var r := SkipPlain(buf, pos);
      if r.Fail? then r else SkipArray(buf, r.next)
  }

  /** `skip`: past the element at `pos` without building it. */
  function Skip(buf: seq<Byte>, pos: nat): (r: Scan<()>)
    requires pos <= |buf|
    ensures Within(r, buf, pos)
    ensures r.Done? ==> pos < r.next
  {
    if pos < |buf| && buf[pos] == ARRAY then SkipArray(buf, pos + 1) else SkipPlain(buf, pos)
  }

  // ----- Whole tuples

  /** `decode_prefix_with`'s loop over an undecoded buffer. */
  function ReadAll(buf: seq<Byte>, pos: nat, types: seq<ValueType>, dirs: seq<Direction>, out: seq<Value>)
    : (r: Scan<seq<Value>>)
    requires pos <= |buf|
    ensures Within(r, buf, pos)
    decreases |types|
  {
    if types == [] then Done(out, pos)
    else
      var r := Read(Masked(buf, Head(dirs)), pos, types[0]);
      if r.Fail? then r.Forward() else ReadAll(buf, r.next, types[1..], Tail(dirs), out + [r.value])
  }

  /** `decode`: every byte has to be consumed. */
  function Decode(buf: seq<Byte>, types: seq<ValueType>): Scan<seq<Value>> {
    var r := ReadAll(buf, 0, types, [], []);
    if r.Done? && r.next < |buf| then Fail(TrailingBytes(|r.value|, |buf| - r.next), r.next) else r
  }
}
