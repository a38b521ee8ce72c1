/** The reader as it runs: a cursor over a buffer, moved by each call. */
module Reader {
  import opened ByteStrings
  import opened Values
  import opened Encoding
  import opened Decoding

  datatype Result<+T> = Ok(value: T) | Err(error: TupleError)

  /** The call returned what the scan says and left the cursor where the scan does. */
  ghost predicate Agrees<T>(r: Result<T>, pos: nat, s: Scan<T>) {
    pos == s.next && match s case Done(v, _) => r == Ok(v) case Fail(e, _) => r == Err(e)
  }

  class TupleReader {
    const buf: seq<Byte>
    var pos: nat

    ghost predicate Valid()
      reads this
    {
      pos <= |buf|
    }

    /** The buffer under a direction's mask. */
    ghost function View(d: Direction): (r: seq<Byte>)
      ensures |r| == |buf|
    {
      Masked(buf, d)
    }

    constructor (bytes: seq<Byte>)
      ensures Valid() && buf == bytes && pos == 0
    {
      buf := bytes;
      pos := 0;
    }

    method NextByte(d: Direction) returns (r: Result<Byte>)
      requires Valid()
      modifies this
      ensures Valid() && Agrees(r, pos, Decoding.NextByte(View(d), old(pos)))
    {
      if pos < |buf| {
        r := Ok(if d.Asc? then buf[pos] else 255 - buf[pos]);
        pos := pos + 1;
      } else {
        r := Err(Truncated(pos, 1));
      }
    }

    method Take(n: nat, d: Direction) returns (r: Result<seq<Byte>>)
      requires Valid()
      modifies this
      ensures Valid() && Agrees(r, pos, TakeBytes(View(d), old(pos), n))
    {
      if pos + n <= |buf| {
        r := Ok(Masked(buf[pos..pos + n], d));
        assert Masked(buf[pos..pos + n], d) == View(d)[pos..pos + n];
        pos := pos + n;
      } else {
        r := Err(Truncated(pos, pos + n - |buf|));
      }
    }

    method ReadEscaped(d: Direction) returns (r: Result<seq<Byte>>)
      requires Valid()
      modifies this
      ensures Valid() && Agrees(r, pos, EscapedFrom(View(d), old(pos), []))
    {
      var out := [];
      while true
        invariant Valid()
        invariant EscapedFrom(View(d), old(pos), []) == EscapedFrom(View(d), pos, out)
        decreases |buf| - pos
      {
        var at := pos;
        var b := NextByte(d);
        if b.Err? { return Err(b.error); }
        if b.value != NUL {
          out := out + [b.value];
        } else {
          var c := NextByte(d);
          if c.Err? { return Err(c.error); }
          if c.value == NUL { return Ok(out); }
          if c.value != ESCAPE { return Err(MalformedEscape(at)); }
          out := out + [NUL];
        }
      }
    }

    /** Byte by byte, the accumulator shifted left each time. */
    method ReadMagnitude(len: nat, negative: bool, d: Direction) returns (r: Result<int>)
      requires Valid()
      modifies this
      ensures Valid()
      ensures old(pos) + len <= |buf| ==> r == Ok(MagnitudeAt(View(d), old(pos), len, negative)) && pos == old(pos) + len
      ensures old(pos) + len > |buf| ==> r == Err(Truncated(|buf|, 1)) && pos == |buf|
    {
      var magnitude: int := 0;
      ghost var m := View(d);
      for i := 0 to len
        invariant Valid() && pos == old(pos) + i
        invariant magnitude == MagnitudeAt(m, old(pos), i, negative)
      {
        var b := NextByte(d);
        if b.Err? { return Err(b.error); }
        var digit: int := if negative then 255 - b.value else b.value;
        magnitude := 256 * magnitude + digit;
        MagnitudeStep(m, old(pos), i, negative);
      }
      return Ok(magnitude);
    }

    method ReadIntBody(code: Byte, d: Direction, start: nat) returns (r: Result<int>)
      requires Valid() && IsIntCode(code)
      modifies this
      ensures Valid() && Agrees(r, pos, IntBody(View(d), old(pos), code, start))
    {
      if code == INT_ZERO {
        assert View(d)[pos..pos] == [];
        return Ok(0);
      }
      hide MagnitudeAt;
      var negative, len := code < INT_ZERO, IntLen(code);
      var m := ReadMagnitude(len, negative, d);
      if m.Err? { return Err(m.error); }
      if MagnitudeLen(m.value) != len { return Err(NonCanonicalInteger(start)); }
      return Ok(if negative then -m.value else m.value);
    }

    method ReadDecimal(d: Direction, start: nat) returns (r: Result<Value>)
      requires Valid()
      modifies this
      ensures Valid() && Agrees(r, pos, DecimalBody(View(d), old(pos), start))
    {
      var code := NextByte(d);
      if code.Err? { return Err(code.error); }
      if !IsIntCode(code.value) { return Err(UnknownTypeCode(start, code.value)); }
      hide IntBody;
      var n := ReadIntBody(code.value, d, start);
      if n.Err? { return Err(n.error); }
      if InI64(n.value) { return Ok(Decimal(n.value)); }
      return Err(UnknownTypeCode(start, code.value));
    }

    method ReadVector(d: Direction) returns (r: Result<seq<UInt32>>)
      requires Valid()
      modifies this
      ensures Valid() && Agrees(r, pos, VectorFrom(View(d), old(pos)))
    {
      Pow256Words();
      var raw := Take(4, d);
      if raw.Err? { return Err(raw.error); }
      var count: UInt32 := FromBigEndian(raw.value);
      var elements: seq<UInt32> := [];
      ghost var body := pos;
      for i := 0 to count
        invariant Valid()
        invariant SinglesFrom(View(d), body, count, []) == SinglesFrom(View(d), pos, count - i, elements)
      {
        var word := Take(4, d);
        if word.Err? { return Err(word.error); }
        elements := elements + [FromOrdered(SINGLE, FromBigEndian(word.value))];
      }
      return Ok(elements);
    }

    method ReadText(code: Byte, d: Direction, start: nat) returns (r: Result<Value>)
      requires Valid() && (code == BYTES || code == STR)
      modifies this
      ensures Valid() && Agrees(r, pos, ScalarBody(View(d), old(pos), code, start))
    {
      hide EscapedFrom;
      var raw := ReadEscaped(d);
      if raw.Err? { return Err(raw.error); }
      if code == BYTES { return Ok(Bytes(raw.value)); }
      if ValidUtf8(raw.value) { return Ok(Str(raw.value)); }
      return Err(InvalidUtf8(start));
    }

    method ReadFixed(code: Byte, d: Direction, start: nat) returns (r: Result<Value>)
      requires Valid() && (code == F64_CODE || code == UUID)
      modifies this
      ensures Valid() && Agrees(r, pos, ScalarBody(View(d), old(pos), code, start))
    {
      Pow256Words();
      var raw := Take(if code == UUID then 16 else 8, d);
      if raw.Err? { return Err(raw.error); }
      if code == UUID { return Ok(Uuid(raw.value)); }
      return Ok(F64(FromOrdered(DOUBLE, FromBigEndian(raw.value))));
    }

    method ReadBody(code: Byte, d: Direction, start: nat) returns (r: Result<Value>)
      requires Valid()
      modifies this
      ensures Valid() && pos >= old(pos)
      ensures Agrees(r, pos, if code == ARRAY then ArrayFrom(View(d), old(pos), []) else ScalarBody(View(d), old(pos), code, start))
      decreases |buf| - pos, 2
    {
      hide EscapedFrom, VectorFrom, DecimalBody, DoubleFrom, TakeBytes, ArrayFrom;
      if code == FALSE {
        r := Ok(Bool(false));
      } else if code == TRUE {
        r := Ok(Bool(true));
      } else if code == BYTES || code == STR {
        r := ReadText(code, d, start);
      } else if code == DECIMAL {
        r := ReadDecimal(d, start);
      } else if code == F64_CODE || code == UUID {
        r := ReadFixed(code, d, start);
      } else if code == VECTOR {
        var singles := ReadVector(d);
        r := if singles.Ok? then Ok(Vector(singles.value)) else Err(singles.error);
      } else if code == ARRAY {
        r := ReadArray(d);
      } else {
        r := Err(UnknownTypeCode(start, code));
      }
    }

    method ReadDynamic(d: Direction) returns (r: Result<Value>)
      requires Valid()
      modifies this
      ensures Valid() && pos >= old(pos) && Agrees(r, pos, Decoding.ReadDynamic(View(d), old(pos)))
      decreases |buf| - pos, 0
    {
      hide IntBody, ScalarBody, ArrayFrom;
      var start := pos;
      var code := NextByte(d);
      if code.Err? { return Err(code.error); }
      if code.value == NULL { return Ok(Null); }
      if IsIntCode(code.value) {
        var n := ReadIntBody(code.value, d, start);
        r := if n.Ok? then Ok(FitInt(n.value)) else Err(n.error);
      } else {
        r := ReadBody(code.value, d, start);
      }
    }

    /** Elements until the terminator. The tag is peeked at and the cursor put back. */
    method ReadArray(d: Direction) returns (r: Result<Value>)
      requires Valid()
      modifies this
      ensures Valid() && pos >= old(pos) && Agrees(r, pos, ArrayFrom(View(d), old(pos), []))
      decreases |buf| - pos, 1
    {
      hide ReadPlain;
      var elements := [];
      while true
        invariant Valid() && pos >= old(pos)
        invariant ArrayFrom(View(d), old(pos), []) == ArrayFrom(View(d), pos, elements)
        decreases |buf| - pos
      {
        var at := pos;
        var code := NextByte(d);
        if code.Err? { return Err(code.error); }
        if code.value == NUL { return Ok(Array(elements)); }
        if code.value == ARRAY { return Err(UnknownTypeCode(at, code.value)); }
        pos := at;
        var v := ReadDynamic(d);
        if v.Err? { return Err(v.error); }
        elements := elements + [v.value];
      }
    }

    /** Schema-directed: null, or the type the column declares. */
    method Read(expected: ValueType, d: Direction) returns (r: Result<Value>)
      requires Valid()
      modifies this
      ensures Valid() && Agrees(r, pos, Decoding.Read(View(d), old(pos), expected))
    {
      hide IntBody, ScalarBody, ArrayFrom;
      var start := pos;
      var code := NextByte(d);
      if code.Err? { return Err(code.error); }
      if code.value == NULL { return Ok(Null); }
      if IsIntCode(code.value) {
        var n := ReadIntBody(code.value, d, start);
        if n.Err? { return Err(n.error); }
        var typed := IntAs(n.value, start, pos, expected);
        return if typed.Done? then Ok(typed.value) else Err(typed.error);
      }
      if !IsBodyCode(code.value) { return Err(UnknownTypeCode(start, code.value)); }
      if CodeType(code.value) != expected { return Err(TypeMismatch(start, expected)); }
      r := ReadBody(code.value, d, start);
    }

    method Advance(n: nat) returns (r: Result<()>)
      requires Valid()
      modifies this
      ensures Valid()
      ensures forall d :: Agrees(r, pos, Decoding.Advance(View(d), old(pos), n))
    {
      if pos + n <= |buf| {
        pos := pos + n;
        r := Ok(());
      } else {
        r := Err(Truncated(pos, n - (|buf| - pos)));
      }
    }

    method SkipEscaped(d: Direction) returns (r: Result<()>)
      requires Valid()
      modifies this
      ensures Valid() && Agrees(r, pos, Decoding.SkipEscaped(View(d), old(pos)))
    {
      while true
        invariant Valid()
        invariant Decoding.SkipEscaped(View(d), old(pos)) == Decoding.SkipEscaped(View(d), pos)
        decreases |buf| - pos
      {
        var at := pos;
        var b := NextByte(d);
        if b.Err? { return Err(b.error); }
        if b.value == NUL {
          var c := NextByte(d);
          if c.Err? { return Err(c.error); }
          if c.value == NUL { return Ok(()); }
          if c.value != ESCAPE { return Err(MalformedEscape(at)); }
        }
      }
    }

    method SkipVector(d: Direction) returns (r: Result<()>)
      requires Valid()
      modifies this
      ensures Valid()
      ensures var m := View(d);
              Agrees(r, pos, if old(pos) + 4 > |m| then Fail(Truncated(old(pos), old(pos) + 4 - |m|), old(pos))
                             else Decoding.Advance(m, old(pos) + 4, WordAt(m, old(pos)) * 4))
    {
      var raw := Take(4, d);
      if raw.Err? { return Err(raw.error); }
      r := Advance(FromBigEndian(raw.value) * 4);
    }

    method SkipDecimal(d: Direction, start: nat) returns (r: Result<()>)
      requires Valid()
      modifies this
      ensures Valid()
      ensures var m := View(d);
              Agrees(r, pos, if old(pos) == |m| then Fail(Truncated(old(pos), 1), old(pos))
                             else if !IsIntCode(m[old(pos)]) then Fail(UnknownTypeCode(start, m[old(pos)]), old(pos) + 1)
                             else Decoding.Advance(m, old(pos) + 1, IntLen(m[old(pos)])))
    {
      var inner := NextByte(d);
      if inner.Err? { return Err(inner.error); }
      if !IsIntCode(inner.value) { return Err(UnknownTypeCode(start, inner.value)); }
      r := Advance(IntLen(inner.value));
    }

    method Skip(d: Direction) returns (r: Result<()>)
      requires Valid()
      modifies this
      ensures Valid() && pos >= old(pos) && Agrees(r, pos, Decoding.Skip(View(d), old(pos)))
      decreases |buf| - pos, 0
    {
      hide WordAt;
      ghost var m := View(d);
      var start := pos;
      var tag := NextByte(d);
      if tag.Err? { return Err(tag.error); }
      var code := tag.value;
      if code == NULL || code == FALSE || code == TRUE { return Ok(()); }
      if IsIntCode(code) {
        r := Advance(IntLen(code));
      } else if code == BYTES || code == STR {
        r := SkipEscaped(d);
      } else if code == F64_CODE {
        r := Advance(8);
      } else if code == DECIMAL {
        r := SkipDecimal(d, start);
      } else if code == UUID {
        r := Advance(16);
      } else if code == VECTOR {
        r := SkipVector(d);
      } else if code == ARRAY {
        r := SkipArray(d);
      } else {
        r := Err(UnknownTypeCode(start, code));
      }
    }

    method SkipArray(d: Direction) returns (r: Result<()>)
      requires Valid()
      modifies this
      ensures Valid() && pos >= old(pos) && Agrees(r, pos, Decoding.SkipArray(View(d), old(pos)))
      decreases |buf| - pos, 1
    {
      hide SkipPlain;
      while true
        invariant Valid() && pos >= old(pos)
        invariant Decoding.SkipArray(View(d), old(pos)) == Decoding.SkipArray(View(d), pos)
        decreases |buf| - pos
      {
        var at := pos;
        var inner := NextByte(d);
        if inner.Err? { return Err(inner.error); }
        if inner.value == NUL { return Ok(()); }
        if inner.value == ARRAY { return Err(UnknownTypeCode(at, inner.value)); }
        pos := at;
        r := Skip(d);
        if r.Err? { return; }
      }
    }
  }

  lemma {:induction false} MagnitudeStep(m: seq<Byte>, pos: nat, i: nat, negative: bool)
    requires pos + i < |m|
    ensures var digit: int := if negative then 255 - m[pos + i] else m[pos + i];
            MagnitudeAt(m, pos, i + 1, negative) == 256 * MagnitudeAt(m, pos, i, negative) + digit
  {
    var raw := m[pos..pos + i + 1];
    assert raw[..i] == m[pos..pos + i];
    assert Complement(raw)[..i] == Complement(raw[..i]);
  }

  /** `decode_prefix_with`: the columns, and the unread remainder. */
  method DecodePrefixWith(bytes: seq<Byte>, types: seq<ValueType>, dirs: seq<Direction>)
    returns (r: Result<seq<Value>>, rest: seq<Byte>)
    ensures var s := ReadAll(bytes, 0, types, dirs, []);
            (s.Done? ==> r == Ok(s.value) && rest == bytes[s.next..]) && (s.Fail? ==> r == Err(s.error))
  {
    var reader := new TupleReader(bytes);
    var out := [];
    rest := [];
    ghost var ds := dirs;
    for i := 0 to |types|
      invariant reader.Valid() && reader.buf == bytes
      invariant ds == if i <= |dirs| then dirs[i..] else []
      invariant ReadAll(bytes, 0, types, dirs, []) == ReadAll(bytes, reader.pos, types[i..], ds, out)
    {
      var d := if i < |dirs| then dirs[i] else Asc;
      assert types[i..][1..] == types[i + 1..];
      hide Decoding.Read;
      var v := reader.Read(types[i], d);
      if v.Err? { return Err(v.error), []; }
      out := out + [v.value];
      ds := Tail(ds);
    }
    return Ok(out), bytes[reader.pos..];
  }

  method DecodeTuple(bytes: seq<Byte>, types: seq<ValueType>) returns (r: Result<seq<Value>>)
    ensures var s := Decode(bytes, types); r == if s.Done? then Ok(s.value) else Err(s.error)
  {
    var values, rest := DecodePrefixWith(bytes, types, []);
    if values.Err? { return values; }
    if rest != [] { return Err(TrailingBytes(|values.value|, |rest|)); }
    return values;
  }
}
