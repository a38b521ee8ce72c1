/** An `IN` over a key column: several narrow ranges, and each admitted row in exactly one. */
module InRanges {
  import opened Options
  import opened ByteStrings
  import opened Values
  import opened ValueOrder
  import opened Encoding
  import opened Tuples
  import Ranges
  import opened KeyRanges
  import opened Exprs
  import opened Implication
  import opened Bounds
  import opened KeyMatch

  const MAX_INDEX_RANGES: nat := 1024

  /** One range, and the value of the `IN` it is for. */
  datatype Pick = Pick(value: Value, range: KeyRange)

  /** The constraints with the column pinned to one value. */
  function PinColumn(cs: Constraints, column: nat, value: Value): Constraints {
    cs[column := For(cs, column).(equals := Some(value), anyOf := None)]
  }

  /** `meets_other_bounds`. */
  predicate MeetsOthers(c: Constraint, value: Value) {
    MeetsRanges(c.ranges, |c.ranges|, value)
    && (c.startsWith.Some? ==> value.Str? && IsPrefix(c.startsWith.value, value.text))
  }

  predicate Kept(base: seq<Byte>, cols: seq<KeyColumn>, cs: Constraints, column: nat, value: Value) {
    MeetsOthers(For(cs, column), value) && !IsEmpty(Matched(base, cols, PinColumn(cs, column, value)))
  }

  function Picks(base: seq<Byte>, cols: seq<KeyColumn>, cs: Constraints, column: nat, distinct: seq<Value>, n: nat): seq<Pick>
    requires n <= |distinct|
  {
    if n == 0 then []
    else
      var v := distinct[n - 1];
      Picks(base, cols, cs, column, distinct, n - 1)
      + if Kept(base, cols, cs, column, v) then [Pick(v, Matched(base, cols, PinColumn(cs, column, v)))] else []
  }

  /** `in_ranges`: `None` where the predicate gives nothing to split on. */
  function Split(base: seq<Byte>, cols: seq<KeyColumn>, cs: Constraints): Option<seq<Pick>> {
    var n := RunFrom(cols, cs, 0);
    if n == |cols| then None
    else
      var column := cols[n].ordinal;
      var anyOf := For(cs, column).anyOf;
      if anyOf.None? || |anyOf.value| > MAX_INDEX_RANGES then None
      else
        var distinct := Distinct(anyOf.value, |anyOf.value|);
        var picks := Picks(base, cols, cs, column, distinct, |distinct|);
        if picks == [] then None else Some(Arranged(picks, |picks|))
  }

  /** `start_bytes` of one is at or below that of the other; no start sorts first. */
  predicate NotAfter(a: KeyRange, b: KeyRange) {
    a.start.Unbounded? || (!b.start.Unbounded? && Lex(a.start.key, b.start.key) != Greater)
  }

  /** The stable sort by start, one range at a time. */
  function Place(p: Pick, ps: seq<Pick>): seq<Pick> {
    if ps == [] then [p]
    else if NotAfter(ps[0].range, p.range) then [ps[0]] + Place(p, ps[1..])
    else [p] + ps
  }

  function Arranged(ps: seq<Pick>, n: nat): seq<Pick>
    requires n <= |ps|
  {
    if n == 0 then [] else Place(ps[n - 1], Arranged(ps, n - 1))
  }

  lemma {:induction false} PlaceMember(p: Pick, ps: seq<Pick>, q: Pick)
    ensures q in Place(p, ps) <==> q == p || q in ps
  {
    hide NotAfter;
    if ps != [] {
      PlaceMember(p, ps[1..], q);
      assert ps == [ps[0]] + ps[1..];
    }
  }

  lemma {:induction false} ArrangedMember(ps: seq<Pick>, n: nat, q: Pick)
    requires n <= |ps|
    ensures q in Arranged(ps, n) <==> q in ps[..n]
  {
    hide Place;
    if n > 0 {
      ArrangedMember(ps, n - 1, q);
      PlaceMember(ps[n - 1], Arranged(ps, n - 1), q);
      assert ps[..n] == ps[..n - 1] + [ps[n - 1]];
    }
  }

  /** No two of the values are equal. */
  ghost predicate Apart(ps: seq<Pick>) { forall i, k | 0 <= i < k < |ps| :: Compare(ps[i].value, ps[k].value) != Equal }

  ghost predicate InOrder(ps: seq<Pick>) { forall i, k | 0 <= i < k < |ps| :: NotAfter(ps[i].range, ps[k].range) }

  lemma {:induction false} PlaceApart(p: Pick, ps: seq<Pick>)
    requires Apart(ps) && forall q | q in ps :: Compare(q.value, p.value) != Equal && Compare(p.value, q.value) != Equal
    ensures Apart(Place(p, ps))
  {
    hide Compare, NotAfter;
    if ps != [] && NotAfter(ps[0].range, p.range) {
      PlaceApart(p, ps[1..]);
      var rest := Place(p, ps[1..]);
      forall k | 0 <= k < |rest| ensures Compare(ps[0].value, rest[k].value) != Equal {
        PlaceMember(p, ps[1..], rest[k]);
        if rest[k] in ps[1..] {
          var j: nat :| j < |ps[1..]| && ps[1..][j] == rest[k];
          assert ps[j + 1] == rest[k];
        }
      }
      hide Place;
    }
  }

  lemma {:induction false} NotAfterChain(a: KeyRange, b: KeyRange, c: KeyRange)
    ensures NotAfter(a, b) || NotAfter(b, a)
    ensures NotAfter(a, b) && NotAfter(b, c) ==> NotAfter(a, c)
  {
    if !a.start.Unbounded? && !b.start.Unbounded? {
      LexAntisymmetric(a.start.key, b.start.key);
      if !c.start.Unbounded? { LexChain(a.start.key, b.start.key, c.start.key); }
    }
    hide Lex;
  }

  lemma {:induction false} PlaceInOrder(p: Pick, ps: seq<Pick>)
    requires InOrder(ps)
    ensures InOrder(Place(p, ps))
  {
    if ps != [] {
      NotAfterChain(ps[0].range, p.range, p.range);
      if NotAfter(ps[0].range, p.range) {
        PlaceInOrder(p, ps[1..]);
        var rest := Place(p, ps[1..]);
        forall k | 0 <= k < |rest| ensures NotAfter(ps[0].range, rest[k].range) {
          PlaceMember(p, ps[1..], rest[k]);
          if rest[k] in ps[1..] {
            var j: nat :| j < |ps[1..]| && ps[1..][j] == rest[k];
            assert ps[j + 1] == rest[k];
          }
        }
      } else {
        forall k | 0 <= k < |ps| ensures NotAfter(p.range, ps[k].range) {
          if k > 0 { NotAfterChain(p.range, ps[0].range, ps[k].range); }
        }
      }
      hide NotAfter, Place;
    }
  }

  lemma {:induction false} ArrangedInOrder(ps: seq<Pick>, n: nat)
    requires n <= |ps|
    ensures InOrder(Arranged(ps, n))
  {
    hide Place, InOrder;
    if n > 0 {
      ArrangedInOrder(ps, n - 1);
      PlaceInOrder(ps[n - 1], Arranged(ps, n - 1));
    } else {
      assert InOrder([]) by { NothingInOrder(); }
    }
  }

  lemma {:induction false} NothingInOrder()
    ensures InOrder([]) && Apart([])
  {
  }

  lemma {:induction false} ArrangedApart(ps: seq<Pick>, n: nat)
    requires n <= |ps| && forall i, k | 0 <= i < k < |ps| :: Compare(ps[i].value, ps[k].value) == Less
    ensures Apart(Arranged(ps, n))
  {
    hide Place, Apart, Compare;
    if n > 0 {
      ArrangedApart(ps, n - 1);
      forall q | q in Arranged(ps, n - 1)
        ensures Compare(q.value, ps[n - 1].value) != Equal && Compare(ps[n - 1].value, q.value) != Equal
      {
        ArrangedMember(ps, n - 1, q);
        var j: nat :| j < n - 1 && ps[..n - 1][j] == q;
        assert ps[j] == q;
        CompareFlip(q.value, ps[n - 1].value);
      }
      PlaceApart(ps[n - 1], Arranged(ps, n - 1));
    } else {
      NothingInOrder();
    }
  }

  /** The loop of `in_ranges`. */
  method SplitIn(base: seq<Byte>, cols: seq<KeyColumn>, cs: Constraints) returns (r: Option<seq<Pick>>)
    ensures r == Split(base, cols, cs)
  {
    hide Kept, PinColumn, Distinct, Matched;
    var n := 0;
    while n < |cols| && For(cs, cols[n].ordinal).equals.Some?
      invariant n <= |cols| && RunFrom(cols, cs, n) == RunFrom(cols, cs, 0)
    {
      n := n + 1;
    }
    if n == |cols| { return None; }
    var column := cols[n].ordinal;
    var anyOf := For(cs, column).anyOf;
    if anyOf.None? || |anyOf.value| > MAX_INDEX_RANGES { return None; }
    var distinct := Distinct(anyOf.value, |anyOf.value|);
    var picks := [];
    for k := 0 to |distinct|
      invariant picks == Picks(base, cols, cs, column, distinct, k)
    {
      if Kept(base, cols, cs, column, distinct[k]) {
        var range := MatchKey(base, cols, PinColumn(cs, column, distinct[k]));
        picks := picks + [Pick(distinct[k], range)];
      }
    }
    if picks == [] { return None; }
    var sorted := [];
    for k := 0 to |picks|
      invariant sorted == Arranged(picks, k)
    {
      sorted := Place(picks[k], sorted);
    }
    return Some(sorted);
  }

  lemma {:induction false} PickIs(base: seq<Byte>, cols: seq<KeyColumn>, cs: Constraints, column: nat, distinct: seq<Value>, n: nat, i: nat)
    returns (j: nat)
    requires n <= |distinct| && i < |Picks(base, cols, cs, column, distinct, n)|
    ensures j < n
    ensures var p := Picks(base, cols, cs, column, distinct, n)[i];
            p.value == distinct[j] && p.range == Matched(base, cols, PinColumn(cs, column, p.value)) && !IsEmpty(p.range)
  {
    hide Matched, PinColumn, MeetsOthers, IsEmpty;
    if i < |Picks(base, cols, cs, column, distinct, n - 1)| {
      j := PickIs(base, cols, cs, column, distinct, n - 1, i);
    } else {
      j := n - 1;
    }
  }

  lemma {:induction false} PicksAscend(base: seq<Byte>, cols: seq<KeyColumn>, cs: Constraints, column: nat, distinct: seq<Value>, n: nat, i: nat, k: nat)
    requires Sorted(distinct) && n <= |distinct| && i < k < |Picks(base, cols, cs, column, distinct, n)|
    ensures var ps := Picks(base, cols, cs, column, distinct, n); Compare(ps[i].value, ps[k].value) == Less
  {
    hide Kept, Matched, PinColumn, Compare;
    var before := Picks(base, cols, cs, column, distinct, n - 1);
    if k < |before| {
      PicksAscend(base, cols, cs, column, distinct, n - 1, i, k);
    } else {
      var j := PickIs(base, cols, cs, column, distinct, n - 1, i);
      SortedAt(distinct, j, n - 1);
    }
  }

  lemma {:induction false} PicksHold(base: seq<Byte>, cols: seq<KeyColumn>, cs: Constraints, column: nat, distinct: seq<Value>, n: nat, j: nat)
    returns (i: nat)
    requires j < n <= |distinct| && Kept(base, cols, cs, column, distinct[j])
    ensures var ps := Picks(base, cols, cs, column, distinct, n); i < |ps| && ps[i].value == distinct[j]
  {
    hide Kept, Matched, PinColumn;
    if j == n - 1 {
      i := |Picks(base, cols, cs, column, distinct, n - 1)|;
    } else {
      i := PicksHold(base, cols, cs, column, distinct, n - 1, j);
    }
  }

  /** What one of the ranges is, wherever the sort put it. */
  lemma {:induction false} SplitIs(base: seq<Byte>, cols: seq<KeyColumn>, cs: Constraints, i: nat) returns (j: nat)
    requires Split(base, cols, cs).Some? && i < |Split(base, cols, cs).value|
    ensures RunFrom(cols, cs, 0) < |cols|
    ensures var column := cols[RunFrom(cols, cs, 0)].ordinal; var p := Split(base, cols, cs).value[i];
            && For(cs, column).anyOf.Some?
            && var values := For(cs, column).anyOf.value;
               j < |Distinct(values, |values|)| && p.value == Distinct(values, |values|)[j]
               && p.range == Matched(base, cols, PinColumn(cs, column, p.value)) && !IsEmpty(p.range)
  {
    var column := cols[RunFrom(cols, cs, 0)].ordinal;
    var values := For(cs, column).anyOf.value;
    var distinct := Distinct(values, |values|);
    var picks := Picks(base, cols, cs, column, distinct, |distinct|);
    hide Distinct, Picks, Matched, PinColumn, Arranged, RunFrom, IsEmpty;
    var p := Arranged(picks, |picks|)[i];
    ArrangedMember(picks, |picks|, p);
    assert picks[..|picks|] == picks;
    var m: nat :| m < |picks| && picks[m] == p;
    j := PickIs(base, cols, cs, column, distinct, |distinct|, m);
  }

  /** The ranges come in the order of their starts, and no two for one value. */
  lemma {:induction false} SplitSorted(base: seq<Byte>, cols: seq<KeyColumn>, cs: Constraints)
    requires Split(base, cols, cs).Some?
    ensures InOrder(Split(base, cols, cs).value) && Apart(Split(base, cols, cs).value)
  {
    var column := cols[RunFrom(cols, cs, 0)].ordinal;
    var values := For(cs, column).anyOf.value;
    var distinct := Distinct(values, |values|);
    var picks := Picks(base, cols, cs, column, distinct, |distinct|);
    DistinctSorted(values, |values|);
    hide Distinct, Picks, Arranged, RunFrom, Compare, Apart, InOrder, Sorted;
    forall i: nat, k: nat | i < k < |picks| ensures Compare(picks[i].value, picks[k].value) == Less {
      PicksAscend(base, cols, cs, column, distinct, |distinct|, i, k);
    }
    ArrangedApart(picks, |picks|);
    ArrangedInOrder(picks, |picks|);
  }

  // ----- Pinning one more column

  lemma {:induction false} RunKeeps(cols: seq<KeyColumn>, cs: Constraints, ds: Constraints, n: nat, m: nat)
    requires n <= m < |cols| && m <= RunFrom(cols, cs, n) && Equals(cols, ds, m).Some?
    requires forall k | n <= k < m :: Equals(cols, cs, k).Some? ==> Equals(cols, ds, k).Some?
    ensures m < RunFrom(cols, ds, n)
    decreases m - n
  {
    if n < m { RunKeeps(cols, cs, ds, n + 1, m); }
  }

  /** Pinning the column after the prefix makes the prefix longer by it. */
  lemma {:induction false} PinLengthens(cols: seq<KeyColumn>, cs: Constraints, value: Value)
    requires RunFrom(cols, cs, 0) < |cols|
    ensures var n := RunFrom(cols, cs, 0); n < RunFrom(cols, PinColumn(cs, cols[n].ordinal, value), 0)
  {
    var n := RunFrom(cols, cs, 0);
    RunKeeps(cols, cs, PinColumn(cs, cols[n].ordinal, value), 0, n);
  }

  lemma {:induction false} PinnedHolds(cols: seq<KeyColumn>, cs: Constraints, n: nat, row: Row, k: nat)
    requires k < n <= |cols| && PinnedTo(cols, cs, n) && HoldsPinned(cols, cs, n, row)
    ensures Equals(cols, cs, k).Some? && Same(Equals(cols, cs, k).value, At(row, cols[k].ordinal))
  {
    hide Compare;
    if k < n - 1 { PinnedHolds(cols, cs, n - 1, row, k); }
  }

  // ----- At least one range

  lemma {:induction false} RangesInterchange(ranges: seq<RangeTerm>, n: nat, v: Value, w: Value)
    requires n <= |ranges| && Same(v, w)
    ensures MeetsRanges(ranges, n, v) == MeetsRanges(ranges, n, w)
  {
    if n > 0 {
      RangesInterchange(ranges, n - 1, v, w);
      SameInterchange(v, w, ranges[n - 1].value);
      hide Compare;
    }
  }

  lemma {:induction false} SameText(v: Value, w: Value)
    requires Same(v, w) && w.Str?
    ensures v == w
  {
    LexAntisymmetric(v.text, w.text);
  }

  /** The value of the `IN` that the row holds meets the column's other bounds too. */
  lemma {:induction false} ValueMeetsOthers(c: Constraint, value: Value, v: Value)
    requires Meets(c, v) && Same(value, v)
    ensures MeetsOthers(c, value)
  {
    RangesInterchange(c.ranges, |c.ranges|, value, v);
    hide MeetsRanges, Compare;
    if c.startsWith.Some? { SameText(value, v); }
  }

  lemma {:induction false} PinMeets(cs: Constraints, column: nat, value: Value, row: Row)
    requires MeetsAll(cs, row) && Same(value, At(row, column))
    ensures MeetsAll(PinColumn(cs, column, value), row)
  {
    SameFlip(value, At(row, column));
    hide Compare;
    forall c: nat ensures Meets(For(PinColumn(cs, column, value), c), At(row, c)) {
      assert Meets(For(cs, c), At(row, c));
    }
  }

  lemma {:induction false} PinKeeps(cols: seq<KeyColumn>, cs: Constraints, column: nat, value: Value, row: Row)
    requires KeyKeeps(cols, cs, row)
    ensures KeyKeeps(cols, PinColumn(cs, column, value), row) && KeyFits(cols, row)
  {
    KeepsFits(cols, cs, row);
    hide KeyFits, Harmless, Fits;
    var ds := PinColumn(cs, column, value);
    forall k: nat | k < |cols| ensures Keeps(For(ds, cols[k].ordinal), At(row, cols[k].ordinal)) {
      assert Keeps(For(cs, cols[k].ordinal), At(row, cols[k].ordinal));
    }
  }

  lemma {:induction false} PinnedRangeHolds(base: seq<Byte>, cols: seq<KeyColumn>, cs: Constraints, column: nat, value: Value, row: Row, rest: seq<Byte>)
    requires KeyKeeps(cols, cs, row) && MeetsAll(cs, row) && Same(value, At(row, column))
    ensures Contains(Matched(base, cols, PinColumn(cs, column, value)), KeyOf(base, cols, row, rest))
    ensures Kept(base, cols, cs, column, value)
  {
    var ds, key := PinColumn(cs, column, value), KeyOf(base, cols, row, rest);
    assert Meets(For(cs, column), At(row, column));
    ValueMeetsOthers(For(cs, column), value, At(row, column));
    hide Compare, Contains, Matched, Selected, KeyOf, LiteralsFit, KeyKeeps, KeyFits, PinColumn, WellBounded, MeetsAll, MeetsNext, MeetsOthers, Shortened;
    PinMeets(cs, column, value, row);
    PinKeeps(cols, cs, column, value, row);
    MeetsBounded(ds, row);
    MeetsNextShort(cols, ds, RunFrom(cols, ds, 0), row);
    MeetsSelected(cols, ds, row);
    MatchedExact(base, cols, ds, row, rest);
    var range := Matched(base, cols, ds);
    if IsEmpty(range) { EmptyHoldsNothing(range, key); }
  }

  lemma {:induction false} AnySameHolds(values: seq<Value>, v: Value) returns (j: nat)
    requires AnySame(values, v)
    ensures var distinct := Distinct(values, |values|); j < |distinct| && Same(distinct[j], v)
  {
    DistinctHolds(values, |values|, v);
    SameBeforeIff(values, |values|, v);
    hide Distinct, Same, SameBefore;
    j :| 0 <= j < |Distinct(values, |values|)| && Same(Distinct(values, |values|)[j], v);
  }

  /** Every row that meets the constraints is in one of the ranges. */
  lemma {:induction false} SomeRangeHolds(base: seq<Byte>, cols: seq<KeyColumn>, cs: Constraints, row: Row, rest: seq<Byte>) returns (i: nat)
    requires KeyKeeps(cols, cs, row) && MeetsAll(cs, row) && Split(base, cols, cs).Some?
    ensures i < |Split(base, cols, cs).value| && Contains(Split(base, cols, cs).value[i].range, KeyOf(base, cols, row, rest))
  {
    var column := cols[RunFrom(cols, cs, 0)].ordinal;
    var values := For(cs, column).anyOf.value;
    var distinct := Distinct(values, |values|);
    var picks := Picks(base, cols, cs, column, distinct, |distinct|);
    assert Meets(For(cs, column), At(row, column));
    var j := AnySameHolds(values, At(row, column));
    hide Compare, Contains, Matched, KeyOf, KeyKeeps, PinColumn, MeetsAll, Kept, Distinct, RunFrom, Same, Picks, Arranged;
    PinnedRangeHolds(base, cols, cs, column, distinct[j], row, rest);
    var m := PicksHold(base, cols, cs, column, distinct, |distinct|, j);
    var k := PickIs(base, cols, cs, column, distinct, |distinct|, m);
    ArrangedMember(picks, |picks|, picks[m]);
    assert picks[..|picks|] == picks;
    i :| 0 <= i < |Arranged(picks, |picks|)| && Arranged(picks, |picks|)[i] == picks[m];
  }

  // ----- In key order

  /** A derived range starts at a key, and nothing at or past its start sorts below the prefix. */
  lemma {:induction false} BoundedStart(prefix: seq<Byte>, ranges: seq<RangeTerm>, n: nat, d: Direction, key: seq<Byte>)
    requires n <= |ranges|
    ensures Bounded(prefix, ranges, n, d).start.Included?
    ensures AboveStart(Bounded(prefix, ranges, n, d).start, key) ==> Lex(key, prefix) != Less
  {
    if n > 0 {
      BoundedStart(prefix, ranges, n - 1, d, key);
      var a, b := Bounded(prefix, ranges, n - 1, d).start, BoundFor(prefix, ranges[n - 1].op, ranges[n - 1].value, d).start;
      MaxStartExact(a, b, key);
      assert b.Unbounded? || b.Included?;
    }
    hide Lex, Encode, PrefixEnd;
  }

  lemma {:induction false} AtLeastPrefix(p: seq<Byte>, q: seq<Byte>, key: seq<Byte>)
    requires IsPrefix(p, q) && Lex(key, q) != Less
    ensures Lex(key, p) != Less
  {
    LexAntisymmetric(key, q);
    LexAntisymmetric(key, p);
    hide Lex;
    Ranges.LowerPrefix(p, q, key);
  }

  lemma {:induction false} MatchedFromStart(prefix: seq<Byte>, cols: seq<KeyColumn>, cs: Constraints, n: nat, key: seq<Byte>)
    requires n <= |cols|
    ensures MatchedFrom(prefix, cols, cs, n).start.Included?
    ensures AboveStart(MatchedFrom(prefix, cols, cs, n).start, key) ==> Lex(key, prefix) != Less
  {
    if n < |cols| {
      var c, d := For(cs, cols[n].ordinal), cols[n].direction;
      if c.ranges == [] && c.startsWith.Some? {
        var x := EncodePrefix(Str(c.startsWith.value), d);
        assert (prefix + x)[..|prefix|] == prefix;
        if Lex(key, prefix + x) != Less { AtLeastPrefix(prefix, prefix + x, key); }
      } else {
        BoundedStart(prefix, c.ranges, |c.ranges|, d, key);
      }
    }
    hide Lex, Bounded, EncodePrefix, PrefixEnd;
  }

  lemma {:induction false} PinnedExtends(base: seq<Byte>, cols: seq<KeyColumn>, cs: Constraints, m: nat, n: nat)
    requires m <= n <= |cols| && PinnedTo(cols, cs, n)
    ensures PinnedTo(cols, cs, m) && IsPrefix(Pinned(base, cols, cs, m), Pinned(base, cols, cs, n))
    decreases n
  {
    if m < n {
      PinnedExtends(base, cols, cs, m, n - 1);
      var a, b := Pinned(base, cols, cs, m), Pinned(base, cols, cs, n - 1);
      hide Encode;
      assert Pinned(base, cols, cs, n)[..|a|] == b[..|a|];
    } else {
      var a := Pinned(base, cols, cs, m);
      assert a[..|a|] == a;
    }
  }

  /** So too for any part of the equality prefix. */
  lemma {:induction false} MatchedStart(base: seq<Byte>, cols: seq<KeyColumn>, cs: Constraints, m: nat, key: seq<Byte>)
    requires m <= RunFrom(cols, cs, 0)
    ensures PinnedTo(cols, cs, m) && Matched(base, cols, cs).start.Included?
    ensures AboveStart(Matched(base, cols, cs).start, key) ==> Lex(key, Pinned(base, cols, cs, m)) != Less
  {
    var n := RunFrom(cols, cs, 0);
    RunIsPinned(cols, cs, 0);
    PinnedExtends(base, cols, cs, m, n);
    var prefix := Pinned(base, cols, cs, n);
    hide RunFrom, PinnedTo, Pinned, MatchedFrom, IsPrefix, Lex;
    MatchedFromStart(prefix, cols, cs, n, key);
    if Lex(key, prefix) != Less { AtLeastPrefix(Pinned(base, cols, cs, m), prefix, key); }
  }

  lemma {:induction false} PinnedSame(base: seq<Byte>, cols: seq<KeyColumn>, cs: Constraints, ds: Constraints, n: nat)
    requires n <= |cols| && PinnedTo(cols, cs, n) && forall k | 0 <= k < n :: Equals(cols, ds, k) == Equals(cols, cs, k)
    ensures PinnedTo(cols, ds, n) && Pinned(base, cols, ds, n) == Pinned(base, cols, cs, n)
  {
    hide Encode;
    if n > 0 { PinnedSame(base, cols, cs, ds, n - 1); }
  }

  lemma {:induction false} RunIsSome(cols: seq<KeyColumn>, cs: Constraints, n: nat, k: nat)
    requires n <= |cols| && n <= k < RunFrom(cols, cs, n)
    ensures Equals(cols, cs, k).Some?
    decreases |cols| - n
  {
    if n < k { RunIsSome(cols, cs, n + 1, k); }
  }

  /** Where the keys of one value begin. */
  ghost function Stem(base: seq<Byte>, cols: seq<KeyColumn>, cs: Constraints, value: Value): seq<Byte>
    requires RunFrom(cols, cs, 0) < |cols|
  {
    var n := RunFrom(cols, cs, 0);
    RunIsPinned(cols, cs, 0);
    Pinned(base, cols, cs, n) + Encode(value, cols[n].direction)
  }

  lemma {:induction false} StemIsPinned(base: seq<Byte>, cols: seq<KeyColumn>, cs: Constraints, value: Value)
    requires RunFrom(cols, cs, 0) < |cols|
    ensures var n := RunFrom(cols, cs, 0); var ds := PinColumn(cs, cols[n].ordinal, value);
            n < RunFrom(cols, ds, 0) && PinnedTo(cols, ds, n + 1) && Pinned(base, cols, ds, n + 1) == Stem(base, cols, cs, value)
  {
    var n := RunFrom(cols, cs, 0);
    var ds := PinColumn(cs, cols[n].ordinal, value);
    RunIsPinned(cols, cs, 0);
    PinLengthens(cols, cs, value);
    forall k | 0 <= k < n ensures Equals(cols, ds, k) == Equals(cols, cs, k) { RunIsSome(cols, cs, 0, k); }
    PinnedSame(base, cols, cs, ds, n);
    hide RunFrom, Encode;
  }

  /** A key in the range begins with the stem; one past its start is not below it. */
  lemma {:induction false} RangeOfStem(base: seq<Byte>, cols: seq<KeyColumn>, cs: Constraints, value: Value, key: seq<Byte>)
    requires RunFrom(cols, cs, 0) < |cols|
    ensures var range := Matched(base, cols, PinColumn(cs, cols[RunFrom(cols, cs, 0)].ordinal, value));
            && range.start.Included?
            && (AboveStart(range.start, key) ==> Lex(key, Stem(base, cols, cs, value)) != Less)
            && (Contains(range, key) ==> IsPrefix(Stem(base, cols, cs, value), key))
  {
    var n := RunFrom(cols, cs, 0);
    var ds := PinColumn(cs, cols[n].ordinal, value);
    StemIsPinned(base, cols, cs, value);
    MatchedStart(base, cols, ds, n + 1, key);
    var m := RunFrom(cols, ds, 0);
    RunIsPinned(cols, ds, 0);
    PinnedExtends(base, cols, ds, n + 1, m);
    var prefix := Pinned(base, cols, ds, m);
    hide RunFrom, PinnedTo, Pinned, MatchedFrom, Lex, Stem, PinColumn, AboveStart;
    if Contains(Matched(base, cols, ds), key) {
      if !IsPrefix(prefix, key) { OutsidePrefix(prefix, cols, ds, m, key); }
      assert key[..|Stem(base, cols, cs, value)|] == key[..|prefix|][..|Stem(base, cols, cs, value)|];
    }
  }

  /** Keys that begin with bytes of which one is below the other are in that order. */
  lemma {:induction false} BelowExtends(x: seq<Byte>, y: seq<Byte>, key: seq<Byte>, other: seq<Byte>)
    requires Below(x, y) && IsPrefix(x, key) && (IsPrefix(y, other) || other == y)
    ensures Lex(key, other) == Less && Lex(other, key) == Greater
  {
    assert key == x + key[|x|..];
    var rest := if other == y then [] else other[|y|..];
    assert other == y + rest;
    BelowSuffix(x, y, key[|x|..], rest);
    BelowIsLess(key, other);
  }

  lemma {:induction false} ApartAt(picks: seq<Pick>, i: nat, k: nat)
    requires Apart(picks) && i < k < |picks|
    ensures Compare(picks[i].value, picks[k].value) != Equal
  {
    hide Compare;
  }

  lemma {:induction false} StartsPassedOn(s: Limit, t: Limit, key: seq<Byte>)
    requires s.Included? && t.Included? && Lex(s.key, t.key) != Greater && AboveStart(t, key)
    ensures AboveStart(s, key)
  {
    LexChain(key, t.key, s.key);
    LexAntisymmetric(s.key, t.key);
    hide Lex;
  }

  /** Two values whose bytes differ have them differ at a byte inside both. */
  lemma {:induction false} StemsDiffer(base: seq<Byte>, cols: seq<KeyColumn>, cs: Constraints, v: Value, w: Value)
    requires RunFrom(cols, cs, 0) < |cols| && Element(v) != Element(w)
    ensures Below(Stem(base, cols, cs, v), Stem(base, cols, cs, w)) || Below(Stem(base, cols, cs, w), Stem(base, cols, cs, v))
  {
    var n := RunFrom(cols, cs, 0);
    var d := cols[n].direction;
    RunIsPinned(cols, cs, 0);
    TruncateBytes(v);
    TruncateBytes(w);
    var t, u := Truncate(v), Truncate(w);
    hide RunFrom, Compare, Truncate, Element, Fits, Below, Pinned;
    ElementOrder(t, u);
    DirectedOrder(t, u, d);
    var x, y := Encode(v, d), Encode(w, d);
    assert x == Encode(t, d) && y == Encode(u, d);
    var p := Pinned(base, cols, cs, n);
    if Below(x, y) { BelowPrefix(p, x, y); } else { BelowPrefix(p, y, x); }
  }

  /** Ranges in the order of their starts hold their keys in that order, so that rows come back in
      key order across all of them. */
  lemma {:induction false} ScansInOrder(base: seq<Byte>, cols: seq<KeyColumn>, cs: Constraints, i: nat, k: nat, x: seq<Byte>, y: seq<Byte>)
    requires Split(base, cols, cs).Some? && i < k < |Split(base, cols, cs).value|
    requires var picks := Split(base, cols, cs).value;
             Element(picks[i].value) != Element(picks[k].value) && Contains(picks[i].range, x) && Contains(picks[k].range, y)
    ensures Lex(x, y) == Less
  {
    hide Split, Compare, Matched, Distinct, RunFrom, PinColumn, Apart, Stem, Lex, Encode, Element, IsEmpty;
    var picks := Split(base, cols, cs).value;
    SplitSorted(base, cols, cs);
    var a := SplitIs(base, cols, cs, i);
    var b := SplitIs(base, cols, cs, k);
    var v, w := picks[i].value, picks[k].value;
    RangeOfStem(base, cols, cs, v, x);
    RangeOfStem(base, cols, cs, v, y);
    RangeOfStem(base, cols, cs, w, y);
    assert NotAfter(picks[i].range, picks[k].range);
    StartsPassedOn(picks[i].range.start, picks[k].range.start, y);
    StemsDiffer(base, cols, cs, v, w);
    var p, q := Stem(base, cols, cs, v), Stem(base, cols, cs, w);
    if Below(q, p) {
      BelowExtends(q, p, y, p);
    } else {
      BelowExtends(p, q, x, y);
    }
  }

  // ----- At most one range

  lemma {:induction false} AlikeRun(cols: seq<KeyColumn>, cs: Constraints, column: nat, v: Value, w: Value, n: nat)
    requires n <= |cols|
    ensures RunFrom(cols, PinColumn(cs, column, v), n) == RunFrom(cols, PinColumn(cs, column, w), n)
    decreases |cols| - n
  {
    if n < |cols| { AlikeRun(cols, cs, column, v, w, n + 1); }
  }

  lemma {:induction false} AlikePinned(base: seq<Byte>, cols: seq<KeyColumn>, cs: Constraints, column: nat, v: Value, w: Value, n: nat)
    requires n <= |cols| && PinnedTo(cols, PinColumn(cs, column, v), n) && Element(v) == Element(w)
    ensures PinnedTo(cols, PinColumn(cs, column, w), n)
    ensures Pinned(base, cols, PinColumn(cs, column, v), n) == Pinned(base, cols, PinColumn(cs, column, w), n)
  {
    hide Element;
    if n > 0 { AlikePinned(base, cols, cs, column, v, w, n - 1); }
  }

  /** Values that share their bytes have one range. */
  lemma {:induction false} AlikeMatched(base: seq<Byte>, cols: seq<KeyColumn>, cs: Constraints, column: nat, v: Value, w: Value)
    requires Element(v) == Element(w)
    ensures Matched(base, cols, PinColumn(cs, column, v)) == Matched(base, cols, PinColumn(cs, column, w))
  {
    var ds, es := PinColumn(cs, column, v), PinColumn(cs, column, w);
    var n := RunFrom(cols, ds, 0);
    AlikeRun(cols, cs, column, v, w, 0);
    RunIsPinned(cols, ds, 0);
    AlikePinned(base, cols, cs, column, v, w, n);
    assert forall c: nat :: For(ds, c).ranges == For(es, c).ranges && For(ds, c).startsWith == For(es, c).startsWith;
    hide RunFrom, PinnedTo, Pinned, PinColumn, Bounded, PrefixRange, EncodePrefix, Element;
  }

  /** Of two ranges of an `IN`, a key is in both just if the two values have the same bytes: and no
      two values that can be written have. */
  lemma {:induction false} NoKeyTwice(base: seq<Byte>, cols: seq<KeyColumn>, cs: Constraints, i: nat, k: nat)
    requires Split(base, cols, cs).Some? && i < k < |Split(base, cols, cs).value|
    ensures var picks := Split(base, cols, cs).value;
            && ((exists key :: Contains(picks[i].range, key) && Contains(picks[k].range, key))
                <==> Element(picks[i].value) == Element(picks[k].value))
            && (Element(picks[i].value) == Element(picks[k].value) ==> !Fits(picks[i].value) || !Fits(picks[k].value))
  {
    hide Split, Compare, Matched, Distinct, RunFrom, PinColumn, Stem, Encode, Element, IsEmpty, Contains, Apart, InOrder, HiddenGap, Fits;
    var picks := Split(base, cols, cs).value;
    SplitSorted(base, cols, cs);
    ApartAt(picks, i, k);
    var a := SplitIs(base, cols, cs, i);
    var b := SplitIs(base, cols, cs, k);
    var v, w := picks[i].value, picks[k].value;
    if Element(v) == Element(w) {
      AlikeMatched(base, cols, cs, cols[RunFrom(cols, cs, 0)].ordinal, v, w);
      RangeOfStem(base, cols, cs, v, []);
      var key := InhabitedFrom(picks[i].range);
      if Fits(v) && Fits(w) { ElementOrder(v, w); EqualBytes(v, w); }
    } else {
      forall key | Contains(picks[i].range, key) ensures !Contains(picks[k].range, key) {
        if Contains(picks[k].range, key) {
          ScansInOrder(base, cols, cs, i, k, key, key);
          LexReflexive(key);
        }
      }
    }
  }

  /** What the `IN` of a value and of what is written of it says. */
  lemma {:induction false} InIsCollected(column: nat, w: Value)
    requires !Fits(w)
    ensures ConstraintsOf(In(column, [Truncate(w), w])) == map[column := Constraint(None, [], Some([Truncate(w), w]), None)]
    ensures Distinct([Truncate(w), w], 2) == [Truncate(w), w]
  {
    var e := In(column, [Truncate(w), w]);
    assert Conjuncts(e) == [e];
    assert Collected([e], 0) == map[];
    TruncateBelow(w);
    CompareFlip(Truncate(w), w);
    assert !Truncate(w).Null? && !w.Null?;
    hide Compare, Truncate, Fits;
    var t := Truncate(w);
    assert Distinct([t, w], 1) == Insert(t, []) by { assert Distinct([t, w], 0) == []; }
    assert Insert(w, [t]) == [t, w] by { assert [t][1..] == [] && Insert(w, []) == [w]; }
  }

  lemma {:induction false} ArrangeTwo(p: Pick, q: Pick)
    ensures Arranged([p, q], 2) == [p, q] || Arranged([p, q], 2) == [q, p]
  {
    hide NotAfter;
    assert Arranged([p, q], 1) == [p] by { assert Arranged([p, q], 0) == []; }
    assert [p][1..] == [] && Place(q, []) == [q];
    assert Place(q, [p]) == if NotAfter(p.range, q.range) then [p] + [q] else [q] + [p];
  }

  /** Both ranges are kept. */
  lemma {:induction false} TwoPicks(base: seq<Byte>, cols: seq<KeyColumn>, cs: Constraints, column: nat, v: Value, w: Value)
    requires Kept(base, cols, cs, column, v) && Kept(base, cols, cs, column, w)
    ensures Picks(base, cols, cs, column, [v, w], 2)
         == [Pick(v, Matched(base, cols, PinColumn(cs, column, v))), Pick(w, Matched(base, cols, PinColumn(cs, column, w)))]
  {
    hide Kept, Matched, PinColumn;
    var vs := [v, w];
    assert vs[0] == v && vs[1] == w;
    assert Picks(base, cols, cs, column, vs, 0) == [];
    var r := Picks(base, cols, cs, column, vs, 1);
    assert r == [Pick(v, Matched(base, cols, PinColumn(cs, column, v)))];
  }

  lemma {:induction false} HolderMeets(column: nat, d: Direction, w: Value, row: Row)
    requires !Fits(w) && At(row, column) == Truncate(w)
    ensures var cs := ConstraintsOf(In(column, [Truncate(w), w]));
            && MeetsAll(cs, row) && KeyKeeps([KeyColumn(column, d)], cs, row)
            && For(cs, column) == Constraint(None, [], Some([Truncate(w), w]), None)
  {
    var t, cs := Truncate(w), ConstraintsOf(In(column, [Truncate(w), w]));
    InIsCollected(column, w);
    TruncateBytes(w);
    CompareSelf(t);
    assert !t.Null?;
    hide Compare, Truncate, Fits, ConstraintsOf;
    assert forall c: nat :: For(cs, c) == if c == column then Constraint(None, [], Some([t, w]), None) else NONE_SAID;
    assert AnySame([t, w], t) by { assert Same([t, w][0], t); }
  }

  /** On a column that may hold a vector or an array, a row that an `IN` admits can be read twice. */
  lemma {:induction false} RowReadTwice(base: seq<Byte>, column: nat, d: Direction, w: Value, row: Row, rest: seq<Byte>)
    requires !Fits(w) && At(row, column) == Truncate(w)
    ensures var cols, cs := [KeyColumn(column, d)], ConstraintsOf(In(column, [Truncate(w), w]));
            && Split(base, cols, cs).Some? && |Split(base, cols, cs).value| == 2
            && forall k | 0 <= k < 2 :: Contains(Split(base, cols, cs).value[k].range, KeyOf(base, cols, row, rest))
  {
    var t, cols, cs := Truncate(w), [KeyColumn(column, d)], ConstraintsOf(In(column, [Truncate(w), w]));
    HolderMeets(column, d, w, row);
    InIsCollected(column, w);
    TruncateBytes(w);
    CompareSelf(t);
    hide Compare, Truncate, Fits, Matched, KeyOf, Contains, PinColumn, Element, ConstraintsOf, Distinct, IsEmpty, MeetsAll, KeyKeeps, Picks, Arranged;
    PinnedRangeHolds(base, cols, cs, column, t, row, rest);
    AlikeMatched(base, cols, cs, column, t, w);
    assert RunFrom(cols, cs, 0) == 0;
    TwoPicks(base, cols, cs, column, t, w);
    var picks := Picks(base, cols, cs, column, [t, w], 2);
    ArrangeTwo(picks[0], picks[1]);
  }

  lemma {:induction false} EqualBytes(v: Value, w: Value)
    requires Fits(v) && Fits(w) && Element(v) == Element(w)
    ensures Compare(v, w) == Equal
  {
    ElementsPrefixFree(v, w, Asc, []);
    hide Compare, Element;
  }

  lemma {:induction false} InhabitedFrom(r: KeyRange) returns (key: seq<Byte>)
    requires r.start.Included? && !IsEmpty(r)
    ensures Contains(r, key)
  {
    if r.end.Excluded? { LexEmpty(r.start.key); }
    key := Inhabitant(r);
    hide Lex;
  }

  /** A row whose key begins as the keys of one value holds that value, as it is written. */
  lemma {:induction false} StemHolds(base: seq<Byte>, cols: seq<KeyColumn>, cs: Constraints, value: Value, row: Row, rest: seq<Byte>)
    requires RunFrom(cols, cs, 0) < |cols| && KeyFits(cols, row)
    requires IsPrefix(Stem(base, cols, cs, value), KeyOf(base, cols, row, rest))
    ensures Same(Truncate(value), At(row, cols[RunFrom(cols, cs, 0)].ordinal))
  {
    var n := RunFrom(cols, cs, 0);
    var ds := PinColumn(cs, cols[n].ordinal, value);
    StemIsPinned(base, cols, cs, value);
    PinnedExact(base, cols, ds, n + 1, row, rest);
    PinnedHolds(cols, Shortened(ds), n + 1, row, n);
    ShortenedFor(ds, cols[n].ordinal);
    hide Truncate, Compare, Shortened, KeyOf, KeyFits, Stem, Pinned, PinnedTo, HoldsPinned, IsPrefix;
  }

  /** What the row holds in the column that is split on is of a type the schema lets into a key. */
  ghost predicate SplitsPlain(cols: seq<KeyColumn>, cs: Constraints, row: Row) {
    var n := RunFrom(cols, cs, 0);
    n < |cols| ==> Keyable(At(row, cols[n].ordinal))
  }

  lemma {:induction false} KeyableIs(value: Value, v: Value)
    requires Same(Truncate(value), v) && Keyable(v)
    ensures Same(value, v)
  {
  }

  lemma {:induction false} SameValue(v: Value, w: Value, x: Value)
    requires Same(v, x) && Same(w, x)
    ensures Compare(v, w) == Equal
  {
    hide Compare;
    CompareFlip(w, x);
    CompareChain(v, x, w);
  }

  /** No row that holds a value the schema lets into a key is in two of the ranges, whatever the
      candidates are. */
  lemma {:induction false} NoRowTwice(base: seq<Byte>, cols: seq<KeyColumn>, cs: Constraints, row: Row, rest: seq<Byte>, i: nat, k: nat)
    requires Split(base, cols, cs).Some? && i < k < |Split(base, cols, cs).value| && KeyFits(cols, row) && SplitsPlain(cols, cs, row)
    ensures var picks, key := Split(base, cols, cs).value, KeyOf(base, cols, row, rest);
            !(Contains(picks[i].range, key) && Contains(picks[k].range, key))
  {
    hide Split, Compare, Matched, Distinct, RunFrom, PinColumn, Stem, Encode, Truncate, IsEmpty, Contains, Apart, InOrder, KeyOf, KeyFits, IsPrefix;
    var picks, key := Split(base, cols, cs).value, KeyOf(base, cols, row, rest);
    SplitSorted(base, cols, cs);
    ApartAt(picks, i, k);
    var a := SplitIs(base, cols, cs, i);
    var b := SplitIs(base, cols, cs, k);
    var v, w, x := picks[i].value, picks[k].value, At(row, cols[RunFrom(cols, cs, 0)].ordinal);
    if Contains(picks[i].range, key) && Contains(picks[k].range, key) {
      RangeOfStem(base, cols, cs, v, key);
      RangeOfStem(base, cols, cs, w, key);
      StemHolds(base, cols, cs, v, row, rest);
      StemHolds(base, cols, cs, w, row, rest);
      KeyableIs(v, x);
      KeyableIs(w, x);
      SameValue(v, w, x);
    }
  }
}
