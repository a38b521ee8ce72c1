/** Whole tuples: byte order, prefix scans and equality of composed keys. */
module Tuples {
  import opened ByteStrings
  import opened Values
  import opened ValueOrder
  import opened Encoding

  function Encode(v: Value, d: Direction): (r: seq<Byte>)
    ensures |r| == |Element(v)| > 0
  {
    Masked(Element(v), d)
  }

  /** `encode_with`: directions past the end of the list are ascending. */
  function EncodeWith(values: seq<Value>, dirs: seq<Direction>): seq<Byte>
    decreases |values|
  {
    if values == [] then [] else Encode(values[0], Head(dirs)) + EncodeWith(values[1..], Tail(dirs))
  }

  function Directed(o: Ordering, d: Direction): Ordering { if d.Asc? then o else o.Reverse() }

  /** Element-wise under each element's direction, then shorter-is-less. */
  function CompareTuples(a: seq<Value>, b: seq<Value>, dirs: seq<Direction>): Ordering
    decreases |a|
  {
    if a == [] || b == [] then CompareInts(|a|, |b|)
    else Directed(Compare(a[0], b[0]), Head(dirs)).Then(CompareTuples(a[1..], b[1..], Tail(dirs)))
  }

  lemma {:induction false} DirectedOrder(v: Value, w: Value, d: Direction)
    requires Fits(v) && Fits(w)
    ensures Realises(Directed(Compare(v, w), d), Encode(v, d), Encode(w, d))
  {
    ElementOrder(v, w);
    if d.Desc? { RealisesComplement(Compare(v, w), Element(v), Element(w)); }
  }

  lemma {:induction false} LexSharedPrefix(p: seq<Byte>, x: seq<Byte>, y: seq<Byte>)
    ensures Lex(p + x, p + y) == Lex(x, y)
  {
    if p == [] {
      assert p + x == x && p + y == y;
    } else {
      LexSharedPrefix(p[1..], x, y);
      assert (p + x)[1..] == p[1..] + x && (p + y)[1..] == p[1..] + y;
    }
  }

  /** Byte order equals value order, over all tuples and all direction lists. */
  lemma {:induction false} TupleOrder(a: seq<Value>, b: seq<Value>, dirs: seq<Direction>)
    requires AllFit(a) && AllFit(b)
    ensures Lex(EncodeWith(a, dirs), EncodeWith(b, dirs)) == CompareTuples(a, b, dirs)
    decreases |a|
  {
    hide Compare, Element;
    if a != [] && b != [] {
      var d := Head(dirs);
      var x, y := Encode(a[0], d), Encode(b[0], d);
      var s, t := EncodeWith(a[1..], Tail(dirs)), EncodeWith(b[1..], Tail(dirs));
      DirectedOrder(a[0], b[0], d);
      match Directed(Compare(a[0], b[0]), d)
      case Less => BelowSuffix(x, y, s, t); BelowIsLess(x + s, y + t);
      case Greater => BelowSuffix(y, x, t, s); BelowIsLess(y + t, x + s);
      case Equal =>
        TupleOrder(a[1..], b[1..], Tail(dirs));
        LexSharedPrefix(x, s, t);
    }
  }

  /** No element's encoding is a proper prefix of another's, equal bytes are equal values, and
      what follows cannot matter: a buffer begins with `v`'s encoding exactly when the element
      it opens with equals `v`. */
  lemma {:induction false} ElementsPrefixFree(v: Value, w: Value, d: Direction, rest: seq<Byte>)
    requires Fits(v) && Fits(w)
    ensures IsPrefix(Encode(v, d), Encode(w, d)) <==> Compare(v, w) == Equal
    ensures IsPrefix(Encode(v, d), Encode(w, d) + rest) <==> Compare(v, w) == Equal
    ensures Encode(v, d) == Encode(w, d) <==> Compare(v, w) == Equal
  {
    DirectedOrder(v, w, d);
    RealisesPrefix(Directed(Compare(v, w), d), Encode(v, d), Encode(w, d), rest);
  }

  lemma {:induction false} IsPrefixSplit(p: seq<Byte>, q: seq<Byte>, s: seq<Byte>, t: seq<Byte>)
    requires |p| == |s|
    ensures IsPrefix(p + q, s + t) <==> p == s && IsPrefix(q, t)
  {
    if IsPrefix(p + q, s + t) {
      assert p == (p + q)[..|p|] == (s + t)[..|p + q|][..|p|] == s;
      assert q == (p + q)[|p|..] == (s + t)[..|p + q|][|p|..] == t[..|q|];
    }
    if p == s && IsPrefix(q, t) {
      assert (s + t)[..|p + q|] == s + t[..|q|];
    }
  }

  /** A prefix scan is a tuple-prefix query: the keys that begin with the encoding of `a`
      are the encodings of the tuples whose leading elements equal `a`. */
  lemma {:induction false} PrefixScanIsTuplePrefix(a: seq<Value>, b: seq<Value>, dirs: seq<Direction>, rest: seq<Byte>)
    requires AllFit(a) && AllFit(b)
    requires |a| <= |b|
    ensures IsPrefix(EncodeWith(a, dirs), EncodeWith(b, dirs) + rest)
       <==> CompareTuples(a, b[..|a|], dirs) == Equal
    decreases |a|
  {
    hide Compare, Element;
    if a != [] {
      var d := Head(dirs);
      var x, y := Encode(a[0], d), Encode(b[0], d);
      var s, t := EncodeWith(a[1..], Tail(dirs)), EncodeWith(b[1..], Tail(dirs));
      assert b[..|a|][1..] == b[1..][..|a| - 1];
      assert EncodeWith(b, dirs) + rest == y + (t + rest);
      PrefixScanIsTuplePrefix(a[1..], b[1..], Tail(dirs), rest);
      ElementsPrefixFree(a[0], b[0], d, t + rest);
      if x == y {
        IsPrefixSplit(x, s, y, t + rest);
      } else {
        PrefixOfConcat(x, s, y + (t + rest));
      }
    }
  }

  /** Comparing values is comparing their encodings. */
  lemma {:induction false} CompareIsLex(v: Value, w: Value)
    requires Fits(v) && Fits(w)
    ensures Compare(v, w) == Lex(Element(v), Element(w))
  {
    ElementOrder(v, w);
    RealisesLex(Compare(v, w), Element(v), Element(w));
  }

  // ----- The bound on vectors

  /** What the encoder writes of a value: each vector's first `u32::MAX` elements. */
  function Truncate(v: Value): Value {
    match v
    case Vector(s) => Vector(s[..VectorCount(s)])
    case Array(es) => Array(TruncateAll(es))
    case _ => v
  }

  function TruncateAll(vs: seq<Value>): seq<Value> {
    if vs == [] then [] else [Truncate(vs[0])] + TruncateAll(vs[1..])
  }

  lemma {:induction false} TruncateBytes(v: Value)
    ensures Element(Truncate(v)) == Element(v) && Fits(Truncate(v))
    decreases v, 1
  {
    match v
    case Vector(s) => var t := s[..VectorCount(s)]; assert t[..VectorCount(t)] == s[..VectorCount(s)];
    case Array(es) => TruncateAllBytes(es);
    case _ =>
  }

  lemma {:induction false} TruncateAllBytes(vs: seq<Value>)
    ensures Elements(TruncateAll(vs)) == Elements(vs) && AllFit(TruncateAll(vs))
    decreases vs, 0
  {
    if vs != [] {
      TruncateBytes(vs[0]);
      TruncateAllBytes(vs[1..]);
      var t := TruncateAll(vs);
      assert t[1..] == TruncateAll(vs[1..]);
      AllFitCons(t);
      hide Element, Fits;
    }
  }

  /** It is the value itself if the value fits, and below it otherwise. */
  lemma {:induction false} TruncateBelow(v: Value)
    ensures Fits(v) ==> Truncate(v) == v
    ensures Compare(Truncate(v), v) == if Fits(v) then Equal else Less
    decreases v, 1
  {
    match v
    case Vector(s) => if Fits(v) { assert s[..|s|] == s; CompareSelf(v); }
    case Array(es) => TruncateAllBelow(es);
    case _ => CompareSelf(v);
  }

  lemma {:induction false} TruncateAllBelow(vs: seq<Value>)
    ensures AllFit(vs) ==> TruncateAll(vs) == vs
    ensures CompareLists(TruncateAll(vs), vs) == if AllFit(vs) then Equal else Less
    decreases vs, 0
  {
    if vs != [] {
      TruncateBelow(vs[0]);
      TruncateAllBelow(vs[1..]);
      AllFitCons(vs);
      assert TruncateAll(vs)[1..] == TruncateAll(vs[1..]);
      hide Compare, Truncate, Fits;
    }
  }

  /** The bytes say where a value stands among those that fit. */
  ghost predicate KeepsOrder(v: Value) {
    forall w | Fits(w) :: Lex(Element(v), Element(w)) == Compare(v, w)
  }

  /** The order law holds exactly of the values that fit: one that holds too long a vector, itself
      or in an array at any depth, has the bytes of a smaller one. */
  lemma {:induction false} OrderLawIff(v: Value)
    ensures Fits(v) <==> KeepsOrder(v)
  {
    hide Compare, Element, Lex, Fits, Truncate;
    if Fits(v) {
      forall w | Fits(w) ensures Lex(Element(v), Element(w)) == Compare(v, w) { CompareIsLex(v, w); }
    } else {
      TruncateBytes(v);
      TruncateBelow(v);
      CompareFlip(Truncate(v), v);
      LexReflexive(Element(v));
    }
  }

  // ----- LIKE 'abc%'

  /** `encode_prefix_into`: the element without its terminator. */
  function EncodePrefix(v: Value, d: Direction): seq<Byte>
    requires v.Bytes? || v.Str?
  {
    Masked(if v.Bytes? then [BYTES] + Escaped(v.bytes) else [STR] + Escaped(v.text), d)
  }

  lemma {:induction false} EscapedPrefix(p: seq<Byte>, s: seq<Byte>, rest: seq<Byte>)
    ensures IsPrefix(Escaped(p), Terminated(s) + rest) <==> IsPrefix(p, s)
    decreases |p|
  {
    if p != [] && s != [] {
      EscapedPrefix(p[1..], s[1..], rest);
      var x := EscapedByte(p[0]);
      var y := EscapedByte(s[0]);
      assert Terminated(s) + rest == y + (Terminated(s[1..]) + rest);
      if p[0] == s[0] {
        IsPrefixSplit(x, Escaped(p[1..]), y, Terminated(s[1..]) + rest);
        IsPrefixSplit([p[0]], p[1..], [s[0]], s[1..]);
        assert p == [p[0]] + p[1..] && s == [s[0]] + s[1..];
      } else {
        NotPrefixAt(Escaped(p), Terminated(s) + rest, 0);
        NotPrefixAt(p, s, 0);
      }
    } else if p != [] {
      var t := Terminated(s) + rest;
      assert t[0] == NUL && t[1] == NUL;
      NotPrefixAt(Escaped(p), t, if p[0] == NUL then 1 else 0);
    }
  }

  lemma {:induction false} MaskedPrefix(p: seq<Byte>, s: seq<Byte>, d: Direction)
    ensures IsPrefix(Masked(p, d), Masked(s, d)) <==> IsPrefix(p, s)
  {
    if |p| <= |s| {
      assert s == s[..|p|] + s[|p|..];
      MaskedConcat(s[..|p|], s[|p|..], d);
      assert Masked(s, d)[..|p|] == Masked(s[..|p|], d);
      MaskedTwice(p, d);
      MaskedTwice(s[..|p|], d);
    }
  }

  predicate StartsWith(w: Value, v: Value)
    requires v.Bytes? || v.Str?
  {
    if v.Bytes? then w.Bytes? && IsPrefix(v.bytes, w.bytes) else w.Str? && IsPrefix(v.text, w.text)
  }

  lemma {:induction false} TagAndTextSelect(code: Byte, p: seq<Byte>, w: Value, raw: seq<Byte>)
    requires code == BYTES || code == STR
    ensures IsPrefix([code] + Escaped(p), Element(w) + raw)
       <==> (w.Bytes? && code == BYTES && IsPrefix(p, w.bytes)) || (w.Str? && code == STR && IsPrefix(p, w.text))
  {
    CodeOfRank(w);
    var e := Element(w) + raw;
    if e[0] != code {
      NotPrefixAt([code] + Escaped(p), e, 0);
    } else {
      var s := if w.Bytes? then w.bytes else w.text;
      assert e == [code] + (Terminated(s) + raw);
      IsPrefixSplit([code], Escaped(p), [code], Terminated(s) + raw);
      EscapedPrefix(p, s, raw);
    }
  }

  /** The prefix range selects exactly the strings (or byte strings) that start that way. */
  lemma {:induction false} EncodePrefixSelects(v: Value, w: Value, d: Direction, rest: seq<Byte>)
    requires v.Bytes? || v.Str?
    ensures IsPrefix(EncodePrefix(v, d), Encode(w, d) + rest) <==> StartsWith(w, v)
  {
    var code, p := if v.Bytes? then BYTES else STR, if v.Bytes? then v.bytes else v.text;
    var raw := Masked(rest, d);
    MaskedTwice(rest, d);
    MaskedConcat(Element(w), raw, d);
    MaskedPrefix([code] + Escaped(p), Element(w) + raw, d);
    TagAndTextSelect(code, p, w, raw);
  }
}
