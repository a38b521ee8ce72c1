/** Matching a predicate against the columns of a key: which keys the derived range holds. */
module KeyMatch {
  import opened Options
  import opened ByteStrings
  import opened Values
  import opened ValueOrder
  import opened Encoding
  import opened Tuples
  import opened KeyRanges
  import opened Exprs
  import opened Bounds

  datatype KeyColumn = KeyColumn(ordinal: nat, direction: Direction)

  /** The encoder can write the row's key. */
  ghost predicate KeyFits(cols: seq<KeyColumn>, row: Row) {
    forall k | 0 <= k < |cols| :: Fits(At(row, cols[k].ordinal))
  }

  /** No bound on a column of the key leaves out the row's value. */
  ghost predicate KeyKeeps(cols: seq<KeyColumn>, cs: Constraints, row: Row) {
    forall k | 0 <= k < |cols| :: Keeps(For(cs, cols[k].ordinal), At(row, cols[k].ordinal))
  }

  /** Every literal of the constraints is one the encoder can write. */
  ghost predicate LiteralsFit(cs: Constraints) {
    forall c: nat :: ConstraintFits(For(cs, c))
  }

  ghost predicate ConstraintFits(c: Constraint) {
    (c.equals.Some? ==> Fits(c.equals.value)) && forall k | 0 <= k < |c.ranges| :: Fits(c.ranges[k].value)
  }

  lemma {:induction false} KeepsFits(cols: seq<KeyColumn>, cs: Constraints, row: Row)
    requires KeyKeeps(cols, cs, row)
    ensures KeyFits(cols, row)
  {
    forall k: nat | k < |cols| ensures Fits(At(row, cols[k].ordinal)) {
      assert Keeps(For(cs, cols[k].ordinal), At(row, cols[k].ordinal));
    }
    hide Keeps, Fits;
  }

  // ----- The key of a row

  /** What follows the first `n` key columns of a row's key. */
  function KeyTail(cols: seq<KeyColumn>, row: Row, n: nat, rest: seq<Byte>): seq<Byte>
    requires n <= |cols|
    decreases |cols| - n
  {
    if n == |cols| then rest
    else Encode(At(row, cols[n].ordinal), cols[n].direction) + KeyTail(cols, row, n + 1, rest)
  }

  function KeyOf(base: seq<Byte>, cols: seq<KeyColumn>, row: Row, rest: seq<Byte>): seq<Byte> {
    base + KeyTail(cols, row, 0, rest)
  }

  // ----- The equality prefix

  function Equals(cols: seq<KeyColumn>, cs: Constraints, n: nat): Option<Value>
    requires n < |cols|
  {
    For(cs, cols[n].ordinal).equals
  }

  /** How many leading columns are pinned to a value, from the `n`th on. */
  function RunFrom(cols: seq<KeyColumn>, cs: Constraints, n: nat): (m: nat)
    requires n <= |cols|
    ensures n <= m <= |cols|
    ensures m < |cols| ==> Equals(cols, cs, m).None?
    decreases |cols| - n
  {
    if n == |cols| || Equals(cols, cs, n).None? then n else RunFrom(cols, cs, n + 1)
  }

  ghost predicate PinnedTo(cols: seq<KeyColumn>, cs: Constraints, n: nat)
    requires n <= |cols|
  {
    n == 0 || (PinnedTo(cols, cs, n - 1) && Equals(cols, cs, n - 1).Some?)
  }

  function Pinned(base: seq<Byte>, cols: seq<KeyColumn>, cs: Constraints, n: nat): seq<Byte>
    requires n <= |cols| && PinnedTo(cols, cs, n)
  {
    if n == 0 then base
    else Pinned(base, cols, cs, n - 1) + Encode(Equals(cols, cs, n - 1).value, cols[n - 1].direction)
  }

  /** The row's first `n` key columns hold the pinned values. */
  ghost predicate HoldsPinned(cols: seq<KeyColumn>, cs: Constraints, n: nat, row: Row)
    requires n <= |cols| && PinnedTo(cols, cs, n)
  {
    n == 0 || (HoldsPinned(cols, cs, n - 1, row) && Same(Equals(cols, cs, n - 1).value, At(row, cols[n - 1].ordinal)))
  }

  lemma {:induction false} RunIsPinned(cols: seq<KeyColumn>, cs: Constraints, n: nat)
    requires n <= |cols| && PinnedTo(cols, cs, n)
    ensures PinnedTo(cols, cs, RunFrom(cols, cs, n))
    decreases |cols| - n
  {
    if n < |cols| && Equals(cols, cs, n).Some? { RunIsPinned(cols, cs, n + 1); }
  }

  /** One column further along the prefix. */
  lemma {:induction false} PinnedStep(p: seq<Byte>, w: Value, v: Value, d: Direction, tail: seq<Byte>, key: seq<Byte>)
    requires Fits(v) && Fits(w) && key == p + (Encode(v, d) + tail)
    ensures IsPrefix(p + Encode(w, d), key) <==> Same(w, v)
    ensures Same(w, v) ==> key == p + Encode(w, d) + tail
  {
    IsPrefixSplit(p, Encode(w, d), p, Encode(v, d) + tail);
    ElementsPrefixFree(w, v, d, tail);
    hide Encode, Compare;
    ConcatAssociative(p, Encode(v, d), tail);
  }

  lemma {:induction false} FittingPinnedExact(base: seq<Byte>, cols: seq<KeyColumn>, cs: Constraints, n: nat, row: Row, rest: seq<Byte>)
    requires n <= |cols| && PinnedTo(cols, cs, n) && KeyFits(cols, row) && LiteralsFit(cs)
    ensures var key := KeyOf(base, cols, row, rest);
            && (IsPrefix(Pinned(base, cols, cs, n), key) <==> HoldsPinned(cols, cs, n, row))
            && (HoldsPinned(cols, cs, n, row) ==> key == Pinned(base, cols, cs, n) + KeyTail(cols, row, n, rest))
  {
    var key := KeyOf(base, cols, row, rest);
    if n == 0 {
      assert key[..|base|] == base;
    } else {
      FittingPinnedExact(base, cols, cs, n - 1, row, rest);
      var p, w, d := Pinned(base, cols, cs, n - 1), Equals(cols, cs, n - 1).value, cols[n - 1].direction;
      var v, tail := At(row, cols[n - 1].ordinal), KeyTail(cols, row, n, rest);
      assert Fits(v);
      assert ConstraintFits(For(cs, cols[n - 1].ordinal));
      if HoldsPinned(cols, cs, n - 1, row) {
        assert KeyTail(cols, row, n - 1, rest) == Encode(v, d) + tail;
        PinnedStep(p, w, v, d, tail, key);
      } else {
        PrefixOfConcat(p, Encode(w, d), key);
      }
      hide KeyTail, KeyOf, KeyFits, LiteralsFit, IsPrefix, Same;
    }
  }

  // ----- The range

  function Bounded(prefix: seq<Byte>, ranges: seq<RangeTerm>, n: nat, d: Direction): KeyRange
    requires n <= |ranges|
  {
    if n == 0 then PrefixRange(prefix)
    else Intersect(Bounded(prefix, ranges, n - 1, d), BoundFor(prefix, ranges[n - 1].op, ranges[n - 1].value, d))
  }

  function MatchedFrom(prefix: seq<Byte>, cols: seq<KeyColumn>, cs: Constraints, n: nat): KeyRange
    requires n <= |cols|
  {
    if n == |cols| then PrefixRange(prefix)
    else
      var c, d := For(cs, cols[n].ordinal), cols[n].direction;
      if c.ranges == [] && c.startsWith.Some? then PrefixRange(prefix + EncodePrefix(Str(c.startsWith.value), d))
      else Bounded(prefix, c.ranges, |c.ranges|, d)
  }

  /** `match_key`: the longest equality prefix, then one bound. */
  function Matched(base: seq<Byte>, cols: seq<KeyColumn>, cs: Constraints): KeyRange {
    var n := RunFrom(cols, cs, 0);
    RunIsPinned(cols, cs, 0);
    MatchedFrom(Pinned(base, cols, cs, n), cols, cs, n)
  }

  /** The loops of `match_key`. */
  method MatchKey(base: seq<Byte>, cols: seq<KeyColumn>, cs: Constraints) returns (range: KeyRange)
    ensures range == Matched(base, cols, cs)
  {
    hide Encode, BoundFor, PrefixRange, EncodePrefix, Intersect;
    var prefix := base;
    var n := 0;
    while n < |cols| && For(cs, cols[n].ordinal).equals.Some?
      invariant n <= |cols| && PinnedTo(cols, cs, n)
      invariant RunFrom(cols, cs, n) == RunFrom(cols, cs, 0)
      invariant prefix == Pinned(base, cols, cs, n)
    {
      prefix := prefix + Encode(For(cs, cols[n].ordinal).equals.value, cols[n].direction);
      n := n + 1;
    }
    range := PrefixRange(prefix);
    if n == |cols| { return; }
    var c, d := For(cs, cols[n].ordinal), cols[n].direction;
    if c.ranges == [] && c.startsWith.Some? {
      return PrefixRange(prefix + EncodePrefix(Str(c.startsWith.value), d));
    }
    for k := 0 to |c.ranges|
      invariant range == Bounded(prefix, c.ranges, k, d)
    {
      range := Intersect(range, BoundFor(prefix, c.ranges[k].op, c.ranges[k].value, d));
    }
  }

  /** What the column after the prefix must hold. */
  ghost predicate MeetsNext(cols: seq<KeyColumn>, cs: Constraints, n: nat, row: Row)
    requires n <= |cols|
  {
    n < |cols| ==>
      var c, v := For(cs, cols[n].ordinal), At(row, cols[n].ordinal);
      if c.ranges == [] && c.startsWith.Some? then v.Str? && IsPrefix(c.startsWith.value, v.text)
      else MeetsRanges(c.ranges, |c.ranges|, v)
  }

  /** What a row in the range is: the pinned values, and one bound after them. */
  ghost predicate Selected(cols: seq<KeyColumn>, cs: Constraints, row: Row) {
    var n := RunFrom(cols, cs, 0);
    RunIsPinned(cols, cs, 0);
    HoldsPinned(cols, cs, n, row) && MeetsNext(cols, cs, n, row)
  }

  lemma {:induction false} BoundedExact(prefix: seq<Byte>, ranges: seq<RangeTerm>, n: nat, d: Direction, v: Value, tail: seq<Byte>, key: seq<Byte>)
    requires n <= |ranges| && Fits(v) && AllBounds(ranges) && forall k | 0 <= k < |ranges| :: Fits(ranges[k].value)
    requires key == prefix + (Encode(v, d) + tail)
    ensures Contains(Bounded(prefix, ranges, n, d), key) <==> MeetsRanges(ranges, n, v)
  {
    hide Compare, Contains, BoundFor, Encode, Intersect, PrefixRange, Fits;
    if n == 0 {
      assert key[..|prefix|] == prefix;
      PrefixRangeContains(prefix, key);
    } else {
      BoundedExact(prefix, ranges, n - 1, d, v, tail, key);
      BoundExact(prefix, ranges[n - 1].op, ranges[n - 1].value, d, v, tail);
      IntersectExact(Bounded(prefix, ranges, n - 1, d), BoundFor(prefix, ranges[n - 1].op, ranges[n - 1].value, d), key);
    }
  }

  lemma {:induction false} BoundedInside(prefix: seq<Byte>, ranges: seq<RangeTerm>, n: nat, d: Direction, key: seq<Byte>)
    requires n <= |ranges| && !IsPrefix(prefix, key)
    ensures !Contains(Bounded(prefix, ranges, n, d), key)
  {
    if n == 0 {
      PrefixRangeContains(prefix, key);
    } else {
      BoundedInside(prefix, ranges, n - 1, d, key);
      IntersectExact(Bounded(prefix, ranges, n - 1, d), BoundFor(prefix, ranges[n - 1].op, ranges[n - 1].value, d), key);
      hide Contains, BoundFor, Intersect, IsPrefix;
    }
  }

  /** Outside the prefix nothing is matched. */
  lemma {:induction false} OutsidePrefix(prefix: seq<Byte>, cols: seq<KeyColumn>, cs: Constraints, n: nat, key: seq<Byte>)
    requires n <= |cols| && !IsPrefix(prefix, key)
    ensures !Contains(MatchedFrom(prefix, cols, cs, n), key)
  {
    hide Contains, Bounded, IsPrefix;
    if n == |cols| {
      PrefixRangeContains(prefix, key);
    } else {
      var c, d := For(cs, cols[n].ordinal), cols[n].direction;
      if c.ranges == [] && c.startsWith.Some? {
        var x := EncodePrefix(Str(c.startsWith.value), d);
        PrefixRangeContains(prefix + x, key);
        PrefixOfConcat(prefix, x, key);
      } else {
        BoundedInside(prefix, c.ranges, |c.ranges|, d, key);
      }
    }
  }

  lemma {:induction false} LikeExact(prefix: seq<Byte>, start: Utf8, d: Direction, v: Value, tail: seq<Byte>)
    ensures Contains(PrefixRange(prefix + EncodePrefix(Str(start), d)), prefix + (Encode(v, d) + tail))
       <==> v.Str? && IsPrefix(start, v.text)
  {
    var x := EncodePrefix(Str(start), d);
    var y := Encode(v, d) + tail;
    PrefixRangeContains(prefix + x, prefix + y);
    IsPrefixSplit(prefix, x, prefix, y);
    EncodePrefixSelects(Str(start), v, d, tail);
  }

  lemma {:induction false} InsidePrefix(prefix: seq<Byte>, cols: seq<KeyColumn>, cs: Constraints, n: nat, row: Row, rest: seq<Byte>)
    requires n <= |cols| && KeyFits(cols, row) && LiteralsFit(cs)
    requires n < |cols| ==> AllBounds(For(cs, cols[n].ordinal).ranges)
    ensures Contains(MatchedFrom(prefix, cols, cs, n), prefix + KeyTail(cols, row, n, rest)) <==> MeetsNext(cols, cs, n, row)
  {
    var key := prefix + KeyTail(cols, row, n, rest);
    if n == |cols| {
      assert key[..|prefix|] == prefix;
      PrefixRangeContains(prefix, key);
    } else {
      var c, d, v := For(cs, cols[n].ordinal), cols[n].direction, At(row, cols[n].ordinal);
      var tail := KeyTail(cols, row, n + 1, rest);
      assert KeyTail(cols, row, n, rest) == Encode(v, d) + tail;
      assert Fits(v) && ConstraintFits(c);
      hide KeyTail, Contains, Bounded, Encode, MeetsRanges, KeyFits, LiteralsFit, PrefixRange;
      if c.ranges == [] && c.startsWith.Some? {
        LikeExact(prefix, c.startsWith.value, d, v, tail);
      } else {
        BoundedExact(prefix, c.ranges, |c.ranges|, d, v, tail, key);
      }
    }
  }

  ghost predicate WellBounded(cs: Constraints) { forall c: nat :: AllBounds(For(cs, c).ranges) }

  lemma {:induction false} FittingMatchExact(base: seq<Byte>, cols: seq<KeyColumn>, cs: Constraints, row: Row, rest: seq<Byte>)
    requires KeyFits(cols, row) && LiteralsFit(cs) && WellBounded(cs)
    ensures Contains(Matched(base, cols, cs), KeyOf(base, cols, row, rest)) <==> Selected(cols, cs, row)
  {
    var n := RunFrom(cols, cs, 0);
    RunIsPinned(cols, cs, 0);
    FittingPinnedExact(base, cols, cs, n, row, rest);
    var prefix, key := Pinned(base, cols, cs, n), KeyOf(base, cols, row, rest);
    if HoldsPinned(cols, cs, n, row) {
      InsidePrefix(prefix, cols, cs, n, row, rest);
    } else {
      OutsidePrefix(prefix, cols, cs, n, key);
    }
    hide RunFrom, PinnedTo, Pinned, HoldsPinned, MeetsNext, MatchedFrom, KeyTail, KeyOf, Contains, KeyFits, LiteralsFit, WellBounded;
  }

  // ----- Literals that do not fit

  function ShortRanges(ranges: seq<RangeTerm>, n: nat): (r: seq<RangeTerm>)
    requires n <= |ranges|
    ensures |r| == n && forall k | 0 <= k < n :: r[k] == RangeTerm(ranges[k].op, Truncate(ranges[k].value))
  {
    if n == 0 then [] else ShortRanges(ranges, n - 1) + [RangeTerm(ranges[n - 1].op, Truncate(ranges[n - 1].value))]
  }

  function Short(c: Constraint): Constraint {
    c.(equals := if c.equals.Some? then Some(Truncate(c.equals.value)) else None, ranges := ShortRanges(c.ranges, |c.ranges|))
  }

  /** The constraints with their literals as the encoder writes them. */
  function Shortened(cs: Constraints): Constraints { map c | c in cs :: Short(cs[c]) }

  lemma {:induction false} ShortenedFor(cs: Constraints, column: nat)
    ensures For(Shortened(cs), column) == Short(For(cs, column))
  {
  }

  lemma {:induction false} ShortenedFits(cs: Constraints)
    ensures LiteralsFit(Shortened(cs))
    ensures WellBounded(cs) ==> WellBounded(Shortened(cs))
  {
    forall c: nat ensures ConstraintFits(For(Shortened(cs), c)) && (WellBounded(cs) ==> AllBounds(For(Shortened(cs), c).ranges)) {
      ShortenedFor(cs, c);
      var d := For(cs, c);
      if d.equals.Some? { TruncateBytes(d.equals.value); }
      forall k | 0 <= k < |d.ranges| ensures Fits(Short(d).ranges[k].value) { TruncateBytes(d.ranges[k].value); }
      hide Truncate, Fits;
    }
  }

  lemma {:induction false} ShortRun(cols: seq<KeyColumn>, cs: Constraints, n: nat)
    requires n <= |cols|
    ensures RunFrom(cols, Shortened(cs), n) == RunFrom(cols, cs, n)
    decreases |cols| - n
  {
    if n < |cols| {
      ShortenedFor(cs, cols[n].ordinal);
      ShortRun(cols, cs, n + 1);
      hide Shortened, Truncate;
    }
  }

  lemma {:induction false} ShortPinned(base: seq<Byte>, cols: seq<KeyColumn>, cs: Constraints, n: nat)
    requires n <= |cols| && PinnedTo(cols, cs, n)
    ensures PinnedTo(cols, Shortened(cs), n) && Pinned(base, cols, Shortened(cs), n) == Pinned(base, cols, cs, n)
  {
    if n > 0 {
      ShortPinned(base, cols, cs, n - 1);
      ShortenedFor(cs, cols[n - 1].ordinal);
      TruncateBytes(Equals(cols, cs, n - 1).value);
      hide Shortened, Truncate, Element;
    }
  }

  /** A key begins with the equality prefix exactly when the row holds the pinned values, as they are
      written. */
  lemma {:induction false} PinnedExact(base: seq<Byte>, cols: seq<KeyColumn>, cs: Constraints, n: nat, row: Row, rest: seq<Byte>)
    requires n <= |cols| && PinnedTo(cols, cs, n) && KeyFits(cols, row)
    ensures PinnedTo(cols, Shortened(cs), n)
    ensures IsPrefix(Pinned(base, cols, cs, n), KeyOf(base, cols, row, rest)) <==> HoldsPinned(cols, Shortened(cs), n, row)
  {
    hide PinnedTo, Pinned, HoldsPinned, KeyOf, KeyFits, LiteralsFit, WellBounded, Shortened, IsPrefix;
    ShortPinned(base, cols, cs, n);
    ShortenedFits(cs);
    FittingPinnedExact(base, cols, Shortened(cs), n, row, rest);
  }

  lemma {:induction false} ShortBounded(prefix: seq<Byte>, ranges: seq<RangeTerm>, n: nat, m: nat, d: Direction)
    requires n <= m <= |ranges|
    ensures Bounded(prefix, ShortRanges(ranges, m), n, d) == Bounded(prefix, ranges, n, d)
  {
    hide BoundFor, Truncate, Intersect, PrefixRange;
    if n > 0 {
      ShortBounded(prefix, ranges, n - 1, m, d);
      BoundShort(prefix, ranges[n - 1].op, ranges[n - 1].value, d);
    }
  }

  /** The derived range is the one of the shorter literals. */
  lemma {:induction false} MatchedShort(base: seq<Byte>, cols: seq<KeyColumn>, cs: Constraints)
    ensures Matched(base, cols, Shortened(cs)) == Matched(base, cols, cs)
  {
    var n := RunFrom(cols, cs, 0);
    ShortRun(cols, cs, 0);
    RunIsPinned(cols, cs, 0);
    ShortPinned(base, cols, cs, n);
    if n < |cols| {
      ShortenedFor(cs, cols[n].ordinal);
      var c := For(cs, cols[n].ordinal);
      ShortBounded(Pinned(base, cols, cs, n), c.ranges, |c.ranges|, |c.ranges|, cols[n].direction);
    }
    hide RunFrom, PinnedTo, Pinned, Bounded, Shortened, Truncate, PrefixRange, EncodePrefix;
  }

  lemma {:induction false} ShortRangesSame(ranges: seq<RangeTerm>, n: nat)
    requires n <= |ranges| && forall k | 0 <= k < |ranges| :: Fits(ranges[k].value)
    ensures ShortRanges(ranges, n) == ranges[..n]
  {
    hide Truncate, Fits;
    if n > 0 {
      ShortRangesSame(ranges, n - 1);
      TruncateBelow(ranges[n - 1].value);
    }
  }

  lemma {:induction false} ShortenedSame(cs: Constraints)
    requires LiteralsFit(cs)
    ensures Shortened(cs) == cs
  {
    forall c | c in cs ensures Short(cs[c]) == cs[c] {
      assert ConstraintFits(For(cs, c));
      var d := cs[c];
      if d.equals.Some? { TruncateBelow(d.equals.value); }
      ShortRangesSame(d.ranges, |d.ranges|);
      hide Truncate, Fits;
    }
  }

  /** The range holds the key of a row exactly when the row has the pinned values and meets the
      bound after them, whatever the direction of the columns and whatever the key ends with. A
      literal that does not fit counts as what is written of it. */
  lemma {:induction false} MatchedExact(base: seq<Byte>, cols: seq<KeyColumn>, cs: Constraints, row: Row, rest: seq<Byte>)
    requires KeyFits(cols, row) && WellBounded(cs)
    ensures Contains(Matched(base, cols, cs), KeyOf(base, cols, row, rest)) <==> Selected(cols, Shortened(cs), row)
    ensures LiteralsFit(cs) ==> Shortened(cs) == cs
  {
    hide Contains, Matched, KeyOf, Selected, LiteralsFit, WellBounded, Shortened;
    MatchedShort(base, cols, cs);
    ShortenedFits(cs);
    FittingMatchExact(base, cols, Shortened(cs), row, rest);
    if LiteralsFit(cs) { ShortenedSame(cs); }
  }

  lemma {:induction false} SameFlip(v: Value, w: Value)
    ensures Same(v, w) == Same(w, v)
  {
    CompareFlip(v, w);
    hide Compare;
  }

  lemma {:induction false} MeetsBounded(cs: Constraints, row: Row)
    requires MeetsAll(cs, row)
    ensures WellBounded(cs)
  {
    forall c: nat ensures AllBounds(For(cs, c).ranges) { assert Meets(For(cs, c), At(row, c)); }
  }

  lemma {:induction false} MeetsPinned(cols: seq<KeyColumn>, cs: Constraints, n: nat, row: Row)
    requires n <= |cols| && PinnedTo(cols, Shortened(cs), n) && MeetsAll(cs, row) && KeyFits(cols, row)
    ensures HoldsPinned(cols, Shortened(cs), n, row)
  {
    if n > 0 {
      MeetsPinned(cols, cs, n - 1, row);
      var o := cols[n - 1].ordinal;
      ShortenedFor(cs, o);
      assert Meets(For(cs, o), At(row, o));
      assert Fits(At(row, o));
      hide Compare, Fits, Truncate, MeetsRanges, MeetsAll, Shortened;
      var value := For(cs, o).equals.value;
      SameFlip(At(row, o), value);
      SameFits(value, At(row, o));
      TruncateBelow(value);
    }
  }

  /** What the shorter form of a comparison leaves a value it may not lose. */
  lemma {:induction false} KeptKeeps(c: Constraint, k: nat, v: Value)
    requires Keeps(c, v) && AllBounds(c.ranges) && k < |c.ranges| && c.ranges[k].op.Apply(Compare(v, c.ranges[k].value))
    ensures c.ranges[k].op.Apply(Compare(v, Truncate(c.ranges[k].value)))
  {
    hide Compare, Truncate, Harmless, Fits;
    if Keyable(v) {
      KeyableKeeps(v, c.ranges[k].value);
    } else {
      HarmlessKeeps(c.ranges[k].op, c.ranges[k].value, v);
    }
  }

  lemma {:induction false} ShortRangesMet(c: Constraint, n: nat, v: Value)
    requires n <= |c.ranges| && MeetsRanges(c.ranges, n, v) && Keeps(c, v) && AllBounds(c.ranges)
    ensures MeetsRanges(ShortRanges(c.ranges, |c.ranges|), n, v)
  {
    hide Compare, Truncate, Keeps;
    if n > 0 {
      ShortRangesMet(c, n - 1, v);
      KeptKeeps(c, n - 1, v);
    }
  }

  lemma {:induction false} MeetsNextShort(cols: seq<KeyColumn>, cs: Constraints, n: nat, row: Row)
    requires n <= |cols| && MeetsAll(cs, row) && KeyKeeps(cols, cs, row)
    ensures MeetsNext(cols, Shortened(cs), n, row)
  {
    if n < |cols| {
      var o := cols[n].ordinal;
      ShortenedFor(cs, o);
      assert Meets(For(cs, o), At(row, o));
      assert Keeps(For(cs, o), At(row, o));
      hide Compare, Truncate, Keeps, Shortened, MeetsRanges;
      ShortRangesMet(For(cs, o), |For(cs, o).ranges|, At(row, o));
    }
  }

  /** A row that meets every constraint is in the range just if it meets the bound after the equality
      prefix as it is written. */
  lemma {:induction false} MeetsSelected(cols: seq<KeyColumn>, cs: Constraints, row: Row)
    requires MeetsAll(cs, row) && KeyFits(cols, row)
    ensures Selected(cols, Shortened(cs), row) <==> MeetsNext(cols, Shortened(cs), RunFrom(cols, cs, 0), row)
  {
    var n := RunFrom(cols, cs, 0);
    ShortRun(cols, cs, 0);
    RunIsPinned(cols, Shortened(cs), 0);
    MeetsPinned(cols, cs, n, row);
    hide HoldsPinned, MeetsNext, RunFrom, Shortened;
  }

  /** Just which rows the predicate admits are within the bounds derived from it. */
  lemma {:induction false} AdmittedInIff(e: Expr, base: seq<Byte>, cols: seq<KeyColumn>, row: Row, rest: seq<Byte>, world: World)
    requires Admits(e, row, world) && KeyFits(cols, row)
    ensures var cs := ConstraintsOf(e);
            Contains(Matched(base, cols, cs), KeyOf(base, cols, row, rest)) <==> MeetsNext(cols, Shortened(cs), RunFrom(cols, cs, 0), row)
  {
    var cs := ConstraintsOf(e);
    hide Admits, ConstraintsOf, MeetsAll, MeetsNext, Selected, Contains, KeyFits, WellBounded, Shortened;
    AdmittedMeets(e, row, world);
    MeetsBounded(cs, row);
    MeetsSelected(cols, cs, row);
    MatchedExact(base, cols, cs, row, rest);
  }

  /** No row the predicate admits is outside them. */
  lemma {:induction false} NoRowLost(e: Expr, base: seq<Byte>, cols: seq<KeyColumn>, row: Row, rest: seq<Byte>, world: World)
    requires Admits(e, row, world) && KeyKeeps(cols, ConstraintsOf(e), row)
    ensures Contains(Matched(base, cols, ConstraintsOf(e)), KeyOf(base, cols, row, rest))
  {
    var cs := ConstraintsOf(e);
    hide Admits, ConstraintsOf, MeetsAll, MeetsNext, Contains, KeyKeeps, KeyFits, Shortened;
    AdmittedMeets(e, row, world);
    KeepsFits(cols, cs, row);
    MeetsNextShort(cols, cs, RunFrom(cols, cs, 0), row);
    AdmittedInIff(e, base, cols, row, rest, world);
  }
}
