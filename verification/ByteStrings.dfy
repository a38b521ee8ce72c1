/** Byte strings and the order the store keeps its keys in. */
module ByteStrings {

  type Byte = b: int | 0 <= b < 256

  datatype Ordering = Less | Equal | Greater {
    function Reverse(): Ordering {
      match this case Less => Greater case Equal => Equal case Greater => Less
    }

    /** Lexicographic combination: the first comparison that is not `Equal` decides. */
    function Then(next: Ordering): Ordering {
      if Equal? then next else this
    }
  }

  function CompareInts(a: int, b: int): Ordering {
    if a < b then Less else if a == b then Equal else Greater
  }

  /** Byte-wise lexicographic order, a proper prefix sorting first. */
  function Lex(a: seq<Byte>, b: seq<Byte>): Ordering {
    if a == [] && b == [] then Equal
    else if a == [] then Less
    else if b == [] then Greater
    else CompareInts(a[0], b[0]).Then(Lex(a[1..], b[1..]))
  }

  lemma {:induction false} ConcatAssociative<T>(a: seq<T>, b: seq<T>, c: seq<T>)
    ensures a + b + c == a + (b + c)
  {
  }

  lemma {:induction false} FourParts(h: seq<Byte>, x: seq<Byte>, y: seq<Byte>, r: seq<Byte>)
    ensures h + (x + (y + r)) == h + x + y + r
    ensures r == [] ==> h + (x + (y + r)) == h + x + y
  {
  }

  predicate IsPrefix(p: seq<Byte>, s: seq<Byte>) {
    |p| <= |s| && s[..|p|] == p
  }

  lemma {:induction false} NotPrefixAt(p: seq<Byte>, s: seq<Byte>, i: nat)
    requires i < |p|
    requires i < |s| ==> p[i] != s[i]
    ensures !IsPrefix(p, s)
  {
    if |p| <= |s| { assert p[i] != s[..|p|][i]; }
  }

  lemma {:induction false} LexEmpty(s: seq<Byte>)
    ensures Lex([], s) == (if s == [] then Equal else Less)
    ensures Lex(s, []) == (if s == [] then Equal else Greater)
  {
  }

  /** `x` and `y` share their first `i` bytes and `x` holds the smaller byte there. */
  ghost predicate DiffersAt(x: seq<Byte>, y: seq<Byte>, i: nat) {
    i < |x| && i < |y| && x[..i] == y[..i] && x[i] < y[i]
  }

  /** `x` sorts below `y` because of a byte inside both, so that nothing appended
      to either can change the outcome. */
  ghost predicate Below(x: seq<Byte>, y: seq<Byte>) {
    exists i: nat :: DiffersAt(x, y, i)
  }

  /** The bytes `x` and `y` realise the comparison `o`, by a byte inside both. */
  ghost predicate Realises(o: Ordering, x: seq<Byte>, y: seq<Byte>) {
    match o
    case Less => Below(x, y)
    case Equal => x == y
    case Greater => Below(y, x)
  }

  lemma {:induction false} BelowSuffix(x: seq<Byte>, y: seq<Byte>, s: seq<Byte>, t: seq<Byte>)
    requires Below(x, y)
    ensures Below(x + s, y + t)
  {
    var i: nat :| DiffersAt(x, y, i);
    assert (x + s)[..i] == x[..i] && (y + t)[..i] == y[..i];
    assert DiffersAt(x + s, y + t, i);
  }

  lemma {:induction false} BelowPrefix(p: seq<Byte>, x: seq<Byte>, y: seq<Byte>)
    requires Below(x, y)
    ensures Below(p + x, p + y)
  {
    var i: nat :| DiffersAt(x, y, i);
    assert (p + x)[..|p| + i] == p + x[..i] && (p + y)[..|p| + i] == p + y[..i];
    assert DiffersAt(p + x, p + y, |p| + i);
  }

  /** Concatenation realises the lexicographic combination of what its parts realise. */
  lemma {:induction false} RealisesThen(o: Ordering, x: seq<Byte>, y: seq<Byte>, next: Ordering, s: seq<Byte>, t: seq<Byte>)
    requires Realises(o, x, y)
    requires o.Equal? ==> Realises(next, s, t)
    ensures Realises(o.Then(next), x + s, y + t)
  {
    match o
    case Less => BelowSuffix(x, y, s, t);
    case Greater => BelowSuffix(y, x, t, s);
    case Equal =>
      match next
      case Less => BelowPrefix(x, s, t);
      case Greater => BelowPrefix(x, t, s);
      case Equal =>
  }

  lemma {:induction false} RealisesByte(a: Byte, b: Byte)
    ensures Realises(CompareInts(a, b), [a], [b])
  {
    if a < b {
      assert DiffersAt([a], [b], 0);
    } else if b < a {
      assert DiffersAt([b], [a], 0);
    }
  }

  lemma {:induction false} FirstByteDecides(x: seq<Byte>, y: seq<Byte>)
    requires x != [] && y != [] && x[0] != y[0]
    ensures Realises(CompareInts(x[0], y[0]), x, y)
  {
    assert DiffersAt(x, y, 0) || DiffersAt(y, x, 0);
  }

  lemma {:induction false} BelowIsLess(x: seq<Byte>, y: seq<Byte>)
    requires Below(x, y)
    ensures Lex(x, y) == Less && Lex(y, x) == Greater
    ensures !IsPrefix(x, y) && !IsPrefix(y, x)
    decreases |x|
  {
    var i: nat :| DiffersAt(x, y, i);
    assert x[..i][..i] == y[..i];
    if i > 0 {
      assert x[0] == x[..i][0] == y[..i][0] == y[0];
      assert x[1..][..i - 1] == x[..i][1..] && y[1..][..i - 1] == y[..i][1..];
      assert DiffersAt(x[1..], y[1..], i - 1);
      BelowIsLess(x[1..], y[1..]);
    }
  }

  lemma {:induction false} LexReflexive(x: seq<Byte>)
    ensures Lex(x, x) == Equal
  {
    if x != [] { LexReflexive(x[1..]); }
  }

  lemma {:induction false} RealisesLex(o: Ordering, x: seq<Byte>, y: seq<Byte>)
    requires Realises(o, x, y)
    ensures Lex(x, y) == o
    ensures IsPrefix(x, y) || IsPrefix(y, x) ==> o == Equal && x == y
  {
    match o
    case Less => BelowIsLess(x, y);
    case Greater => BelowIsLess(y, x);
    case Equal => LexReflexive(x);
  }

  /** Bytes that realise an order begin with one another only when equal, whatever follows. */
  lemma {:induction false} RealisesPrefix(o: Ordering, x: seq<Byte>, y: seq<Byte>, rest: seq<Byte>)
    requires Realises(o, x, y)
    ensures IsPrefix(x, y + rest) <==> o == Equal
    ensures IsPrefix(x, y) <==> o == Equal
    ensures x == y <==> o == Equal
  {
    RealisesLex(o, x, y);
    assert x + [] == x;
    match o
    case Less => BelowSuffix(x, y, [], rest); BelowIsLess(x, y + rest);
    case Greater => BelowSuffix(y, x, rest, []); BelowIsLess(y + rest, x);
    case Equal =>
  }

  lemma {:induction false} PrefixOfConcat(x: seq<Byte>, s: seq<Byte>, t: seq<Byte>)
    ensures IsPrefix(x + s, t) ==> IsPrefix(x, t)
  {
    if IsPrefix(x + s, t) { assert x == (x + s)[..|x|] == t[..|x + s|][..|x|]; }
  }

  /** `Lex` is antisymmetric and only equal byte strings compare equal. */
  lemma {:induction false} LexAntisymmetric(x: seq<Byte>, y: seq<Byte>)
    ensures Lex(y, x) == Lex(x, y).Reverse()
    ensures Lex(x, y) == Equal <==> x == y
  {
    if x != [] && y != [] {
      LexAntisymmetric(x[1..], y[1..]);
      if x[0] == y[0] {
        assert x == [x[0]] + x[1..] && y == [y[0]] + y[1..];
      }
    }
  }

  lemma {:induction false} LexTransitive(x: seq<Byte>, y: seq<Byte>, z: seq<Byte>)
    requires Lex(x, y) != Greater && Lex(y, z) != Greater
    ensures Lex(x, z) != Greater
    ensures Lex(x, y) == Less || Lex(y, z) == Less ==> Lex(x, z) == Less
  {
    if x != [] && y != [] && z != [] {
      if x[0] == y[0] == z[0] {
        LexTransitive(x[1..], y[1..], z[1..]);
      }
    }
  }

  /** Every byte complemented; what a descending element does to its encoding. */
  function Complement(s: seq<Byte>): (r: seq<Byte>)
    ensures |r| == |s|
    ensures forall i :: 0 <= i < |s| ==> r[i] == 255 - s[i]
  {
    seq(|s|, i requires 0 <= i < |s| => 255 - s[i])
  }

  lemma {:induction false} ComplementTwice(s: seq<Byte>)
    ensures Complement(Complement(s)) == s
  {
  }

  lemma {:induction false} BelowComplement(x: seq<Byte>, y: seq<Byte>)
    requires Below(x, y)
    ensures Below(Complement(y), Complement(x))
  {
    var i: nat :| DiffersAt(x, y, i);
    forall j | 0 <= j < i ensures x[j] == y[j] {
      assert x[..i][j] == y[..i][j];
    }
    assert Complement(x)[..i] == Complement(y)[..i];
    assert DiffersAt(Complement(y), Complement(x), i);
  }

  /** Complementing bytes that realise an order realises exactly the reverse order. */
  lemma {:induction false} RealisesComplement(o: Ordering, x: seq<Byte>, y: seq<Byte>)
    requires Realises(o, x, y)
    ensures Realises(o.Reverse(), Complement(x), Complement(y))
  {
    match o
    case Less => BelowComplement(x, y);
    case Greater => BelowComplement(y, x);
    case Equal =>
  }

  // ----- Big-endian integers

  function Pow256(n: nat): (p: nat)
    ensures p > 0
  {
    if n == 0 then 1 else 256 * Pow256(n - 1)
  }

  function BigEndian(n: nat, len: nat): (s: seq<Byte>)
    requires n < Pow256(len)
    ensures |s| == len
  {
    if len == 0 then [] else BigEndian(n / 256, len - 1) + [n % 256]
  }

  function FromBigEndian(s: seq<Byte>): (n: nat)
    ensures n < Pow256(|s|)
  {
    if s == [] then 0 else 256 * FromBigEndian(s[..|s| - 1]) + s[|s| - 1]
  }

  lemma {:induction false} BigEndianRoundTrip(n: nat, len: nat)
    requires n < Pow256(len)
    ensures FromBigEndian(BigEndian(n, len)) == n
  {
    if len > 0 {
      BigEndianRoundTrip(n / 256, len - 1);
      assert BigEndian(n, len)[..len - 1] == BigEndian(n / 256, len - 1);
    }
  }

  lemma {:induction false} FromBigEndianRoundTrip(s: seq<Byte>)
    ensures BigEndian(FromBigEndian(s), |s|) == s
  {
    if s != [] {
      FromBigEndianRoundTrip(s[..|s| - 1]);
    }
  }

  /** Fixed-width big-endian bytes sort as the numbers do. */
  lemma {:induction false} BigEndianOrder(a: nat, b: nat, len: nat)
    requires a < Pow256(len) && b < Pow256(len)
    ensures Realises(CompareInts(a, b), BigEndian(a, len), BigEndian(b, len))
  {
    if len > 0 {
      BigEndianOrder(a / 256, b / 256, len - 1);
      RealisesByte(a % 256, b % 256);
      RealisesThen(CompareInts(a / 256, b / 256), BigEndian(a / 256, len - 1), BigEndian(b / 256, len - 1),
                   CompareInts(a % 256, b % 256), [a % 256], [b % 256]);
    }
  }
}
