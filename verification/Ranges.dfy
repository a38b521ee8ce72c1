/** Key ranges: a prefix scan as a half-open byte range. */
module Ranges {
  import opened ByteStrings

  datatype Bound = Excluded(key: seq<Byte>) | Unbounded

  /** Drop the trailing `0xFF` bytes, then increment the last one left. */
  function PrefixSuccessor(prefix: seq<Byte>): Bound {
    if prefix == [] then Unbounded
    else
      var last := prefix[|prefix| - 1];
      if last == 255 then PrefixSuccessor(prefix[..|prefix| - 1])
      else Excluded(prefix[..|prefix| - 1] + [last + 1])
  }

  predicate AtLeast(key: seq<Byte>, low: seq<Byte>) { Lex(low, key) != Greater }

  predicate UnderBound(key: seq<Byte>, b: Bound) { b.Unbounded? || Lex(key, b.key) == Less }

  predicate InPrefixRange(key: seq<Byte>, prefix: seq<Byte>) {
    AtLeast(key, prefix) && UnderBound(key, PrefixSuccessor(prefix))
  }

  /** The scan that `rposition` makes, from the end. */
  method ComputePrefixSuccessor(prefix: seq<Byte>) returns (b: Bound)
    ensures b == PrefixSuccessor(prefix)
  {
    var i := |prefix|;
    assert prefix[..i] == prefix;
    while i > 0 && prefix[i - 1] == 255
      invariant 0 <= i <= |prefix|
      invariant PrefixSuccessor(prefix[..i]) == PrefixSuccessor(prefix)
    {
      assert prefix[..i][..i - 1] == prefix[..i - 1];
      i := i - 1;
    }
    if i == 0 { return Unbounded; }
    assert prefix[..i][..i - 1] == prefix[..i - 1];
    return Excluded(prefix[..i - 1] + [prefix[i - 1] + 1]);
  }

  lemma {:induction false} PrefixIsLow(p: seq<Byte>, key: seq<Byte>)
    requires IsPrefix(p, key)
    ensures AtLeast(key, p)
  {
    if p != [] {
      assert p[0] == key[..|p|][0];
      assert key[1..][..|p| - 1] == key[..|p|][1..];
      PrefixIsLow(p[1..], key[1..]);
    }
  }

  /** Below a bound `q + [c + 1]` and not below `q + [c]` means beginning with `q + [c]`. */
  lemma {:induction false} Squeeze(q: seq<Byte>, c: Byte, key: seq<Byte>)
    requires c < 255
    ensures (Lex(key, q + [c + 1]) == Less && AtLeast(key, q + [c])) <==> IsPrefix(q + [c], key)
    decreases |q|
  {
    if key == [] {
    } else if q == [] {
      assert q + [c] == [c] && q + [c + 1] == [c + 1];
      assert [c][1..] == [] && [c + 1][1..] == [];
      LexEmpty(key[1..]);
      assert key[..1] == [key[0]];
    } else {
      Squeeze(q[1..], c, key[1..]);
      assert (q + [c])[1..] == q[1..] + [c] && (q + [c + 1])[1..] == q[1..] + [c + 1];
      if key[0] == q[0] {
        if IsPrefix(q[1..] + [c], key[1..]) { assert key[..|q| + 1] == [key[0]] + key[1..][..|q|]; }
        if IsPrefix(q + [c], key) { assert key[1..][..|q|] == key[..|q| + 1][1..]; }
      } else {
        NotPrefixAt(q + [c], key, 0);
      }
    }
  }

  lemma {:induction false} AllOnesAreHigh(p: seq<Byte>, key: seq<Byte>)
    requires p != [] && p[|p| - 1] == 255
    ensures IsPrefix(p, key) <==> IsPrefix(p[..|p| - 1], key) && AtLeast(key, p)
    decreases |p|
  {
    if |p| == 1 {
      assert p == [255] && p[1..] == [];
      if key != [] { LexEmpty(key[1..]); assert key[..1] == [key[0]]; }
    } else if key != [] {
      assert p[1..][..|p| - 2] == p[..|p| - 1][1..];
      AllOnesAreHigh(p[1..], key[1..]);
      if key[0] == p[0] {
        IsPrefixCons(p, key);
        IsPrefixCons(p[..|p| - 1], key);
      } else {
        NotPrefixAt(p, key, 0);
        NotPrefixAt(p[..|p| - 1], key, 0);
      }
    }
  }

  lemma {:induction false} IsPrefixCons(p: seq<Byte>, key: seq<Byte>)
    requires p != [] && key != [] && p[0] == key[0]
    ensures IsPrefix(p, key) <==> IsPrefix(p[1..], key[1..])
  {
    if IsPrefix(p, key) { assert key[1..][..|p| - 1] == key[..|p|][1..]; }
    if IsPrefix(p[1..], key[1..]) { assert key[..|p|] == [key[0]] + key[1..][..|p| - 1]; }
  }

  lemma {:induction false} LowerPrefix(q: seq<Byte>, p: seq<Byte>, key: seq<Byte>)
    requires IsPrefix(q, p) && AtLeast(key, p)
    ensures AtLeast(key, q)
  {
    PrefixIsLow(q, p);
    LexTransitive(q, p, key);
  }

  /** `prefix_range` covers exactly the keys that start with `prefix`. */
  lemma {:induction false} PrefixRangeExact(prefix: seq<Byte>, key: seq<Byte>)
    ensures InPrefixRange(key, prefix) <==> IsPrefix(prefix, key)
    decreases |prefix|
  {
    if prefix != [] {
      var q, last := prefix[..|prefix| - 1], prefix[|prefix| - 1];
      assert prefix == q + [last];
      if last < 255 {
        Squeeze(q, last, key);
      } else {
        PrefixRangeExact(q, key);
        AllOnesAreHigh(prefix, key);
        if AtLeast(key, prefix) { LowerPrefix(q, prefix, key); }
      }
    }
  }

  /** The bound is the least one: any key at or above everything under the prefix is at or above it. */
  lemma {:induction false} PrefixSuccessorLeast(prefix: seq<Byte>, key: seq<Byte>)
    requires AtLeast(key, prefix) && !IsPrefix(prefix, key)
    ensures PrefixSuccessor(prefix).Excluded? && AtLeast(key, PrefixSuccessor(prefix).key)
  {
    PrefixRangeExact(prefix, key);
    LexAntisymmetric(PrefixSuccessor(prefix).key, key);
  }

  function KeySuccessor(key: seq<Byte>): seq<Byte> { key + [0] }

  /** Nothing sorts between a key and `key ++ 0x00`. */
  lemma {:induction false} KeySuccessorAdjacent(key: seq<Byte>, other: seq<Byte>)
    ensures Lex(key, other) == Less <==> AtLeast(other, KeySuccessor(key))
  {
    if key != [] && other != [] {
      KeySuccessorAdjacent(key[1..], other[1..]);
      assert KeySuccessor(key)[1..] == KeySuccessor(key[1..]);
    } else if other != [] {
      assert KeySuccessor(key)[1..] == [];
      LexEmpty(other[1..]);
    }
  }
}
