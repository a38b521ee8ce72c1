/** The encoder as it runs: a masked sink that appends to one buffer. */
module Writer {
  import opened ByteStrings
  import opened Values
  import opened Encoding
  import opened Tuples

  function MaskByte(b: Byte, d: Direction): Byte { if d.Asc? then b else 255 - b }

  /** `buf` is what the vector held before, then `plain` under the mask. */
  class Sink {
    var buf: seq<Byte>
    const direction: Direction
    ghost const start: seq<Byte>
    ghost var plain: seq<Byte>

    ghost predicate Valid()
      reads this
    {
      buf == start + Masked(plain, direction)
    }

    constructor (out: seq<Byte>, d: Direction)
      ensures Valid() && start == out && direction == d && plain == []
    {
      buf := out;
      direction := d;
      start := out;
      plain := [];
    }

    method Push(b: Byte)
      requires Valid()
      modifies this
      ensures Valid() && plain == old(plain) + [b]
    {
      buf := buf + [MaskByte(b, direction)];
      MaskedConcat(plain, [b], direction);
      ConcatAssociative(start, Masked(plain, direction), Masked([b], direction));
      plain := plain + [b];
    }

    method Extend(bytes: seq<Byte>)
      requires Valid()
      modifies this
      ensures Valid() && plain == old(plain) + bytes
    {
      for i := 0 to |bytes|
        invariant Valid() && plain == old(plain) + bytes[..i]
      {
        Push(bytes[i]);
      }
    }

    method PushEscaped(bytes: seq<Byte>)
      requires Valid()
      modifies this
      ensures Valid() && plain == old(plain) + Terminated(bytes)
    {
      for i := 0 to |bytes|
        invariant Valid() && plain == old(plain) + Escaped(bytes[..i])
      {
        EscapedAppend(bytes[..i], bytes[i]);
        assert bytes[..i + 1] == bytes[..i] + [bytes[i]];
        ConcatAssociative(old(plain), Escaped(bytes[..i]), EscapedByte(bytes[i]));
        ghost var before := plain;
        Push(bytes[i]);
        if bytes[i] == NUL {
          Push(ESCAPE);
        }
        assert plain == before + EscapedByte(bytes[i]);
      }
      assert bytes[..|bytes|] == bytes;
      Push(NUL);
      Push(NUL);
    }

    method PushMagnitude(be: seq<Byte>, negative: bool)
      requires Valid()
      modifies this
      ensures Valid() && plain == old(plain) + if negative then Complement(be) else be
    {
      ghost var sent := if negative then Complement(be) else be;
      for i := 0 to |be|
        invariant Valid() && plain == old(plain) + sent[..i]
      {
        Push(if negative then 255 - be[i] else be[i]);
      }
    }

    method PushInt(negative: bool, magnitude: UInt64)
      requires Valid()
      modifies this
      ensures Valid() && plain == old(plain) + IntBytes(negative, magnitude)
    {
      if magnitude == 0 {
        Push(INT_ZERO);
        return;
      }
      hide MagnitudeBytes, MagnitudeLen;
      var be := MagnitudeBytes(magnitude);
      Push(if negative then INT_ZERO - |be| else INT_ZERO + |be|);
      PushMagnitude(be, negative);
    }

    method PushElement(v: Value)
      requires Valid()
      modifies this
      ensures Valid() && plain == old(plain) + Element(v)
      decreases v, 2
    {
      hide Element;
      buf := EncodeValueInto(buf, v, direction);
      MaskedConcat(plain, Element(v), direction);
      ConcatAssociative(start, Masked(plain, direction), Masked(Element(v), direction));
      plain := plain + Element(v);
    }

    method PushVector(s: seq<UInt32>)
      requires Valid()
      modifies this
      ensures Valid() && plain == old(plain) + VectorBody(s)
    {
      hide Single, Count;
      var count := VectorCount(s);
      Extend(Count(count));
      for i := 0 to count
        invariant Valid() && plain == old(plain) + Count(count) + Singles(s[..i])
      {
        SinglesAppend(s[..i], s[i]);
        assert s[..i + 1] == s[..i] + [s[i]];
        Extend(Single(s[i]));
      }
    }

    method PushArray(es: seq<Value>)
      requires Valid()
      modifies this
      ensures Valid() && plain == old(plain) + Elements(es) + [NUL]
      decreases es, 0
    {
      hide Element;
      for i := 0 to |es|
        invariant Valid() && plain == old(plain) + Elements(es[..i])
      {
        ElementsAppend(es[..i], es[i]);
        assert es[..i + 1] == es[..i] + [es[i]];
        PushElement(es[i]);
      }
      assert es[..|es|] == es;
      Push(NUL);
    }
  }

  lemma {:induction false} EscapedAppend(s: seq<Byte>, b: Byte)
    ensures Escaped(s + [b]) == Escaped(s) + EscapedByte(b)
  {
    hide EscapedByte;
    if s == [] {
      assert s + [b] == [b] && [b][1..] == [];
    } else {
      EscapedAppend(s[1..], b);
      assert (s + [b])[1..] == s[1..] + [b];
    }
  }

  lemma {:induction false} SinglesAppend(s: seq<UInt32>, x: UInt32)
    ensures Singles(s + [x]) == Singles(s) + Single(x)
  {
    hide Single;
    if s == [] {
      assert s + [x] == [x] && [x][1..] == [];
    } else {
      SinglesAppend(s[1..], x);
      assert (s + [x])[1..] == s[1..] + [x];
    }
  }

  lemma {:induction false} ElementsAppend(vs: seq<Value>, v: Value)
    ensures Elements(vs + [v]) == Elements(vs) + Element(v)
  {
    hide Element;
    if vs == [] {
      assert vs + [v] == [v] && [v][1..] == [];
    } else {
      ElementsAppend(vs[1..], v);
      assert (vs + [v])[1..] == vs[1..] + [v];
    }
  }

  /** Appends exactly the element's encoding, complemented byte by byte when descending. */
  method EncodeValueInto(out: seq<Byte>, v: Value, d: Direction) returns (r: seq<Byte>)
    ensures r == out + Encode(v, d)
    decreases v, 1
  {
    hide Terminated, IntBytes, Double, VectorBody, Elements, Masked;
    var sink := new Sink(out, d);
    match v {
      case Null => sink.Push(NULL);
      case Bool(b) => sink.Push(if b then TRUE else FALSE);
      case Bytes(s) => sink.Push(BYTES); sink.PushEscaped(s);
      case Str(s) => sink.Push(STR); sink.PushEscaped(s);
      case I64(n) => sink.PushInt(n < 0, Magnitude(n));
      case U64(n) => sink.PushInt(false, n);
      case Decimal(n) => sink.Push(DECIMAL); sink.PushInt(n < 0, Magnitude(n));
      case F64(bits) => sink.Push(F64_CODE); sink.Extend(Double(bits));
      case Vector(s) => sink.Push(VECTOR); sink.PushVector(s);
      case Uuid(raw) => sink.Push(UUID); sink.Extend(raw);
      case Array(es) => sink.Push(ARRAY); sink.PushArray(es);
    }
    assert sink.plain == Element(v);
    r := sink.buf;
  }

  /** `encode_with`. */
  method EncodeTuple(values: seq<Value>, dirs: seq<Direction>) returns (r: seq<Byte>)
    ensures r == EncodeWith(values, dirs)
  {
    r := [];
    ghost var ds := dirs;
    for i := 0 to |values|
      invariant ds == if i <= |dirs| then dirs[i..] else []
      invariant r + EncodeWith(values[i..], ds) == EncodeWith(values, dirs)
    {
      hide Element;
      var d := if i < |dirs| then dirs[i] else Asc;
      assert values[i..][1..] == values[i + 1..];
      ConcatAssociative(r, Encode(values[i], d), EncodeWith(values[i + 1..], Tail(ds)));
      ds := Tail(ds);
      r := EncodeValueInto(r, values[i], d);
    }
  }
}
