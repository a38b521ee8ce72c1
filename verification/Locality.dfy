/** A reader looks no further than it moves: what it answers depends on the bytes it consumed alone. */
module Locality {
  import opened ByteStrings
  import opened Values
  import opened ValueOrder
  import opened Encoding
  import opened Tuples
  import opened Decoding
  import opened RoundTrip

  /** The two buffers share their first `n` bytes. */
  predicate Share(a: seq<Byte>, b: seq<Byte>, n: nat) { n <= |a| && n <= |b| && a[..n] == b[..n] }

  lemma {:induction false} ShareSlice(a: seq<Byte>, b: seq<Byte>, n: nat, i: nat, j: nat)
    requires Share(a, b, n) && i <= j <= n
    ensures a[i..j] == b[i..j] && Share(a, b, j)
    ensures i < n ==> a[i] == b[i]
  {
    assert a[i..j] == a[..n][i..j] && b[i..j] == b[..n][i..j];
    assert a[..j] == a[..n][..j] && b[..j] == b[..n][..j];
    if i < n { assert a[i] == a[..n][i] && b[i] == b[..n][i]; }
  }

  lemma {:induction false} ShareMasked(a: seq<Byte>, b: seq<Byte>, n: nat, d: Direction)
    requires Share(a, b, n)
    ensures Share(Masked(a, d), Masked(b, d), n)
  {
    assert Masked(a, d)[..n] == Masked(a[..n], d) && Masked(b, d)[..n] == Masked(b[..n], d);
  }

  lemma {:induction false} EscapedLocal(a: seq<Byte>, b: seq<Byte>, pos: nat, out: seq<Byte>)
    requires pos <= |a| && EscapedFrom(a, pos, out).Done? && Share(a, b, EscapedFrom(a, pos, out).next)
    ensures EscapedFrom(b, pos, out) == EscapedFrom(a, pos, out)
    decreases |a| - pos
  {
    var n := EscapedFrom(a, pos, out).next;
    ShareSlice(a, b, n, pos, n);
    if a[pos] != NUL {
      EscapedLocal(a, b, pos + 1, out + [a[pos]]);
    } else {
      ShareSlice(a, b, n, pos + 1, n);
      if a[pos + 1] == ESCAPE { EscapedLocal(a, b, pos + 2, out + [NUL]); }
    }
  }

  lemma {:induction false} IntLocal(a: seq<Byte>, b: seq<Byte>, pos: nat, code: Byte, start: nat)
    requires pos <= |a| && IsIntCode(code) && IntBody(a, pos, code, start).Done? && Share(a, b, IntBody(a, pos, code, start).next)
    ensures IntBody(b, pos, code, start) == IntBody(a, pos, code, start)
  {
    ShareSlice(a, b, pos + IntLen(code), pos, pos + IntLen(code));
  }

  lemma {:induction false} DecimalLocal(a: seq<Byte>, b: seq<Byte>, pos: nat, start: nat)
    requires pos <= |a| && DecimalBody(a, pos, start).Done? && Share(a, b, DecimalBody(a, pos, start).next)
    ensures DecimalBody(b, pos, start) == DecimalBody(a, pos, start)
  {
    var n := DecimalBody(a, pos, start).next;
    ShareSlice(a, b, n, pos, n);
    hide IntBody;
    IntLocal(a, b, pos + 1, a[pos], start);
  }

  lemma {:induction false} SinglesLocal(a: seq<Byte>, b: seq<Byte>, pos: nat, count: nat, out: seq<UInt32>)
    requires pos <= |a| && SinglesFrom(a, pos, count, out).Done? && Share(a, b, SinglesFrom(a, pos, count, out).next)
    ensures SinglesFrom(b, pos, count, out) == SinglesFrom(a, pos, count, out)
    decreases count
  {
    hide FromOrdered;
    if count > 0 {
      var more := out + [FromOrdered(SINGLE, WordAt(a, pos))];
      SinglesForward(a, pos + 4, count - 1, more);
      ShareSlice(a, b, SinglesFrom(a, pos, count, out).next, pos, pos + 4);
      SinglesLocal(a, b, pos + 4, count - 1, more);
    }
  }

  lemma {:induction false} SinglesForward(a: seq<Byte>, pos: nat, count: nat, out: seq<UInt32>)
    requires pos <= |a|
    ensures SinglesFrom(a, pos, count, out).next >= pos
  {
    hide SinglesFrom;
  }

  lemma {:induction false} ScalarLocal(a: seq<Byte>, b: seq<Byte>, pos: nat, code: Byte, start: nat)
    requires pos <= |a| && ScalarBody(a, pos, code, start).Done? && Share(a, b, ScalarBody(a, pos, code, start).next)
    ensures ScalarBody(b, pos, code, start) == ScalarBody(a, pos, code, start)
  {
    hide EscapedFrom, DecimalBody, SinglesFrom, FromOrdered, FromBigEndian;
    var n := ScalarBody(a, pos, code, start).next;
    if code == BYTES || code == STR {
      EscapedLocal(a, b, pos, []);
    } else if code == DECIMAL {
      DecimalLocal(a, b, pos, start);
    } else if code == F64_CODE {
      ShareSlice(a, b, n, pos, pos + 8);
    } else if code == UUID {
      ShareSlice(a, b, n, pos, pos + 16);
    } else if code == VECTOR {
      ShareSlice(a, b, n, pos, pos + 4);
      SinglesLocal(a, b, pos + 4, WordAt(a, pos), []);
    }
  }

  lemma {:induction false} PlainLocal(a: seq<Byte>, b: seq<Byte>, pos: nat)
    requires pos <= |a| && ReadPlain(a, pos).Done? && Share(a, b, ReadPlain(a, pos).next)
    ensures ReadPlain(b, pos) == ReadPlain(a, pos)
  {
    var n := ReadPlain(a, pos).next;
    ShareSlice(a, b, n, pos, n);
    hide IntBody, ScalarBody;
    if IsIntCode(a[pos]) {
      IntLocal(a, b, pos + 1, a[pos], pos);
    } else if a[pos] != NULL {
      ScalarLocal(a, b, pos + 1, a[pos], pos);
    }
  }

  lemma {:induction false} ArrayLocal(a: seq<Byte>, b: seq<Byte>, pos: nat, out: seq<Value>)
    requires pos <= |a| && ArrayFrom(a, pos, out).Done? && Share(a, b, ArrayFrom(a, pos, out).next)
    ensures ArrayFrom(b, pos, out) == ArrayFrom(a, pos, out)
    decreases |a| - pos
  {
    var n := ArrayFrom(a, pos, out).next;
    ShareSlice(a, b, n, pos, n);
    hide ReadPlain;
    if a[pos] != NUL {
      var r := ReadPlain(a, pos);
      ShareSlice(a, b, n, pos, r.next);
      PlainLocal(a, b, pos);
      ArrayLocal(a, b, r.next, out + [r.value]);
    }
  }

  /** A typed read that succeeds does so on any buffer with the bytes it consumed. */
  lemma {:induction false} ReadLocal(a: seq<Byte>, b: seq<Byte>, pos: nat, t: ValueType)
    requires pos <= |a| && Read(a, pos, t).Done? && Share(a, b, Read(a, pos, t).next)
    ensures Read(b, pos, t) == Read(a, pos, t)
  {
    var n := Read(a, pos, t).next;
    ShareSlice(a, b, n, pos, n);
    hide IntBody, ReadPlain, ArrayFrom;
    if a[pos] == NULL {
    } else if IsIntCode(a[pos]) {
      IntLocal(a, b, pos + 1, a[pos], pos);
    } else if a[pos] == ARRAY {
      ArrayLocal(a, b, pos + 1, []);
    } else {
      PlainLocal(a, b, pos);
    }
  }

  lemma {:induction false} ReadAllLocal(a: seq<Byte>, b: seq<Byte>, pos: nat, types: seq<ValueType>, dirs: seq<Direction>, out: seq<Value>)
    requires pos <= |a| && ReadAll(a, pos, types, dirs, out).Done? && Share(a, b, ReadAll(a, pos, types, dirs, out).next)
    ensures ReadAll(b, pos, types, dirs, out) == ReadAll(a, pos, types, dirs, out)
    ensures |ReadAll(a, pos, types, dirs, out).value| == |out| + |types|
    decreases |types|
  {
    hide Read;
    if types != [] {
      var n, d := ReadAll(a, pos, types, dirs, out).next, Encoding.Head(dirs);
      var r := Read(Masked(a, d), pos, types[0]);
      ShareSlice(a, b, n, pos, r.next);
      ShareMasked(a, b, r.next, d);
      ReadLocal(Masked(a, d), Masked(b, d), pos, types[0]);
      ReadAllLocal(a, b, r.next, types[1..], Encoding.Tail(dirs), out + [r.value]);
    }
  }

  // ----- Whole tuples

  /** What an encoded tuple with anything after it decodes as: the tuple alone succeeds, and what is
      left over is counted and refused. */
  lemma {:induction false} DecodeExactly(vs: seq<Value>, types: seq<ValueType>, rest: seq<Byte>)
    requires AllTyped(vs, types) && forall v | v in vs :: Storable(v)
    ensures var r := Decode(EncodeWith(vs, []) + rest, types);
            && (r.Done? <==> rest == [])
            && (r.Done? ==> SameValues(vs, r.value))
            && (r.Fail? ==> r.error == TrailingBytes(|vs|, |rest|))
  {
    DecodePrefixRoundTrip(vs, types, [], rest);
    hide EncodeWith, ReadAll, Compare, Storable;
    var buf := EncodeWith(vs, []) + rest;
    assert |buf[ReadAll(buf, 0, types, [], []).next..]| == |rest|;
  }

  /** Of the bytes that begin alike at most one stretch is a tuple of the types: what goes on after one
      is refused for its tail, and what breaks off inside one is refused too. */
  lemma {:induction false} DecodePrefixFree(a: seq<Byte>, b: seq<Byte>, types: seq<ValueType>)
    requires Share(a, b, |a|) && |a| < |b| && Decode(a, types).Done?
    ensures Decode(b, types).Fail? && Decode(b, types).error == TrailingBytes(|types|, |b| - |a|)
  {
    hide ReadAll;
    ReadAllLocal(a, b, 0, types, [], []);
  }

  // ----- Types

  /** A value the type can hold: an integer by its size, whatever it was written as. */
  predicate Holds(v: Value, t: ValueType) {
    match v
    case I64(n) => t == TI64 || (t == TU64 && n >= 0)
    case U64(n) => t == TU64 || (t == TI64 && n <= I64_MAX)
    case _ => Types(v, t)
  }

  lemma {:induction false} IntegerReadIff(buf: seq<Byte>, pos: nat, v: Value, t: ValueType)
    requires At(buf, pos, Element(v)) && IsInteger(v)
    ensures var r, n := Read(buf, pos, t), AsInt(v);
            && (r.Done? <==> Holds(v, t))
            && (r.Done? ==> IsInteger(r.value) && AsInt(r.value) == n && Types(r.value, t) && r.next == pos + |Element(v)|)
            && (r.Fail? ==> r.error == if t == TI64 || t == TU64 then IntegerOutOfRange(pos, n, t) else TypeMismatch(pos, t))
  {
    CodeOfRank(v);
    IntegerAt(buf, pos, AsInt(v), pos);
    assert Element(v) == Integer(AsInt(v));
    hide IntBody, ReadDynamic, Element, Integer, CodeType;
  }

  /** What stands at the cursor is of another type, by its code. */
  lemma {:induction false} OtherTypeRefused(buf: seq<Byte>, pos: nat, v: Value, t: ValueType)
    requires At(buf, pos, Element(v)) && !IsInteger(v) && !Types(v, t)
    ensures Read(buf, pos, t).Fail? && Read(buf, pos, t).error == TypeMismatch(pos, t)
  {
    CodeOfRank(v);
    assert buf[pos] == buf[pos..pos + |Element(v)|][0] == Element(v)[0];
    hide IntBody, ReadDynamic, Element;
  }

  /** A typed read of a flat value succeeds just if the type can hold it; an integer that does not fit is
      out of range, and anything else is of the wrong type. */
  lemma {:induction false} TypedReadIff(buf: seq<Byte>, pos: nat, v: Value, t: ValueType)
    requires At(buf, pos, Element(v)) && Flat(v)
    ensures var r := Read(buf, pos, t);
            && (r.Done? <==> Holds(v, t))
            && (r.Done? && !IsInteger(v) ==> r == Done(Stored(v), pos + |Element(v)|))
            && (r.Done? && IsInteger(v) ==> IsInteger(r.value) && AsInt(r.value) == AsInt(v) && Types(r.value, t) && r.next == pos + |Element(v)|)
            && (r.Fail? ==> r.error == if IsInteger(v) && (t == TI64 || t == TU64) then IntegerOutOfRange(pos, AsInt(v), t) else TypeMismatch(pos, t))
  {
    hide Read, Element;
    if IsInteger(v) {
      IntegerReadIff(buf, pos, v, t);
    } else if Types(v, t) {
      ReadAt(buf, pos, v, t);
    } else {
      OtherTypeRefused(buf, pos, v, t);
    }
  }
}
