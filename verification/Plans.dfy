/** Whatever way a plan reads a table, it answers what a filter over all rows answers. */
module Plans {
  import opened Options
  import opened ByteStrings
  import opened Values
  import opened ValueOrder
  import opened Encoding
  import opened Tuples
  import opened KeyRanges
  import opened Exprs
  import opened Implication
  import opened Bounds
  import opened KeyMatch
  import opened InRanges
  import Keys
  import RoundTrip

  /** A table, and the columns of its primary key; the first names the tenant, if any does. */
  datatype TableDef = TableDef(layout: Keys.Table, primaryKey: seq<nat>)

  /** An index over columns of the row, or over one computed value, which stands in the row after its
      columns. A partial one holds only the rows its own predicate admits. */
  datatype IndexDef = IndexDef(layout: Keys.Index, columns: seq<KeyColumn>, computed: bool, partial: Option<Expr>)

  /** What `reject_unkeyable` lets through. */
  predicate KeyableTypes(types: seq<ValueType>) { TVector !in types && TArray !in types }

  ghost predicate ValidTable(t: TableDef) { t.primaryKey != [] && KeyableTypes(t.layout.keyTypes) }

  ghost predicate ValidIndex(i: IndexDef) {
    && i.layout.directions == DirectionsFrom(i.columns, 0)
    && (if i.computed then |i.columns| == 1 else KeyableTypes(i.layout.types))
  }

  function ValuesFrom(row: Row, cols: seq<KeyColumn>, n: nat): seq<Value>
    requires n <= |cols|
    decreases |cols| - n
  {
    if n == |cols| then [] else [At(row, cols[n].ordinal)] + ValuesFrom(row, cols, n + 1)
  }

  function DirectionsFrom(cols: seq<KeyColumn>, n: nat): seq<Direction>
    requires n <= |cols|
    decreases |cols| - n
  {
    if n == |cols| then [] else [cols[n].direction] + DirectionsFrom(cols, n + 1)
  }

  function Ascending(ordinals: seq<nat>, n: nat): (r: seq<KeyColumn>)
    requires n <= |ordinals|
    ensures |r| == n && forall k | 0 <= k < n :: r[k] == KeyColumn(ordinals[k], Asc)
  {
    if n == 0 then [] else Ascending(ordinals, n - 1) + [KeyColumn(ordinals[n - 1], Asc)]
  }

  function PrimaryColumns(t: TableDef): seq<KeyColumn> { Ascending(t.primaryKey, |t.primaryKey|) }

  function PrimaryValues(t: TableDef, row: Row): seq<Value> { ValuesFrom(row, PrimaryColumns(t), 0) }

  /** The tenant leads every index key of a table that has one. */
  function IndexColumns(t: TableDef, i: IndexDef): seq<KeyColumn>
    requires t.primaryKey != []
  {
    if t.layout.tenant then [KeyColumn(t.primaryKey[0], Asc)] + i.columns else i.columns
  }

  // ----- Where a row is stored

  function RowKeyOf(t: TableDef, row: Row): seq<Byte> { Keys.RowKey(t.layout, PrimaryValues(t, row)) }

  function EntryKeyOf(t: TableDef, i: IndexDef, row: Row): seq<Byte> {
    Keys.IndexEntry(t.layout, i.layout, ValuesFrom(row, i.columns, 0), PrimaryValues(t, row)).key
  }

  /** A partial index leaves out the rows its predicate does not admit. */
  predicate Indexed(i: IndexDef, row: Row, world: World) { i.partial.Some? ==> Admits(i.partial.value, row, world) }

  lemma {:induction false} TailIsEncoded(cols: seq<KeyColumn>, row: Row, n: nat, rest: seq<Byte>)
    requires n <= |cols|
    ensures KeyTail(cols, row, n, rest) == EncodeWith(ValuesFrom(row, cols, n), DirectionsFrom(cols, n)) + rest
    decreases |cols| - n
  {
    if n < |cols| {
      TailIsEncoded(cols, row, n + 1, rest);
      var vs, ds := ValuesFrom(row, cols, n), DirectionsFrom(cols, n);
      assert vs[1..] == ValuesFrom(row, cols, n + 1) && ds[1..] == DirectionsFrom(cols, n + 1);
      hide Encode;
    }
  }

  lemma {:induction false} AscendingTail(cols: seq<KeyColumn>, row: Row, n: nat)
    requires n <= |cols| && forall k | 0 <= k < |cols| :: cols[k].direction == Asc
    ensures KeyTail(cols, row, n, []) == EncodeWith(ValuesFrom(row, cols, n), [])
    decreases |cols| - n
  {
    if n < |cols| {
      AscendingTail(cols, row, n + 1);
      var vs := ValuesFrom(row, cols, n);
      assert vs[1..] == ValuesFrom(row, cols, n + 1);
      hide Encode;
    }
  }

  lemma {:induction false} RowKeyIsKey(t: TableDef, row: Row)
    ensures RowKeyOf(t, row) == KeyOf(Keys.TablePrefix(t.layout), PrimaryColumns(t), row, [])
  {
    AscendingTail(PrimaryColumns(t), row, 0);
    hide EncodeWith, KeyTail;
  }

  lemma {:induction false} TailDrop(c: KeyColumn, cols: seq<KeyColumn>, row: Row, n: nat, rest: seq<Byte>)
    requires n <= |cols|
    ensures KeyTail([c] + cols, row, n + 1, rest) == KeyTail(cols, row, n, rest)
    decreases |cols| - n
  {
    hide Encode;
    if n < |cols| { TailDrop(c, cols, row, n + 1, rest); }
  }

  lemma {:induction false} IndexTail(t: TableDef, i: IndexDef, row: Row, rest: seq<Byte>)
    requires ValidTable(t) && ValidIndex(i)
    ensures KeyTail(IndexColumns(t, i), row, 0, rest)
         == EncodeWith(Keys.TenantOf(t.layout, PrimaryValues(t, row)), [])
            + (EncodeWith(ValuesFrom(row, i.columns, 0), i.layout.directions) + rest)
  {
    TailIsEncoded(i.columns, row, 0, rest);
    var body := EncodeWith(ValuesFrom(row, i.columns, 0), i.layout.directions) + rest;
    if t.layout.tenant {
      var c := KeyColumn(t.primaryKey[0], Asc);
      var v := At(row, t.primaryKey[0]);
      TailDrop(c, i.columns, row, 0, rest);
      assert PrimaryValues(t, row)[0] == v;
      assert EncodeWith([v], []) == Encode(v, Asc) by { assert [v][1..] == []; }
      hide EncodeWith, Encode, PrimaryValues;
    } else {
      assert EncodeWith([], []) + body == body;
    }
  }

  lemma {:induction false} EntryKeyIsKey(t: TableDef, i: IndexDef, row: Row) returns (rest: seq<Byte>)
    requires ValidTable(t) && ValidIndex(i)
    ensures EntryKeyOf(t, i, row) == KeyOf(Keys.Header(Keys.INDEX_SPACE, i.layout.id), IndexColumns(t, i), row, rest)
  {
    var vs, pk := ValuesFrom(row, i.columns, 0), PrimaryValues(t, row);
    rest := if Keys.Enforces(i.layout, vs) then [] else EncodeWith(pk, []);
    IndexTail(t, i, row, rest);
    hide EncodeWith, KeyTail, Keys.TenantOf, Keys.Enforces, PrimaryValues, ValuesFrom, IndexColumns, DirectionsFrom, Keys.Header;
    FourParts(Keys.Header(Keys.INDEX_SPACE, i.layout.id), EncodeWith(Keys.TenantOf(t.layout, pk), []),
              EncodeWith(vs, i.layout.directions), rest);
  }

  // ----- Ways to read

  datatype Access =
    | Nothing
    | PointGet(key: seq<Value>)
    | PointGets(keys: seq<seq<Value>>)
    | TableScan(range: KeyRange)
    | IndexScan(index: IndexDef, range: KeyRange)
    | IndexScans(index: IndexDef, picks: seq<Pick>)

  /** The access comes upon the row. */
  ghost predicate Reaches(t: TableDef, a: Access, row: Row, world: World) {
    match a
    case Nothing => false
    case PointGet(key) => RowKeyOf(t, row) == Keys.RowKey(t.layout, key)
    case PointGets(keys) => exists k | 0 <= k < |keys| :: RowKeyOf(t, row) == Keys.RowKey(t.layout, keys[k])
    case TableScan(range) => Contains(range, RowKeyOf(t, row))
    case IndexScan(i, range) => Indexed(i, row, world) && Contains(range, EntryKeyOf(t, i, row))
    case IndexScans(i, picks) =>
      Indexed(i, row, world) && exists k | 0 <= k < |picks| :: Contains(picks[k].range, EntryKeyOf(t, i, row))
  }

  /** The key that equalities pin whole. */
  function PinnedKey(cols: seq<KeyColumn>, cs: Constraints, n: nat): seq<Value>
    requires n <= |cols| && PinnedTo(cols, cs, n)
  {
    if n == 0 then [] else PinnedKey(cols, cs, n - 1) + [Equals(cols, cs, n - 1).value]
  }

  /** `match_primary_key`. */
  function PrimaryAccess(t: TableDef, cs: Constraints): Access {
    var cols := PrimaryColumns(t);
    RunIsPinned(cols, cs, 0);
    if cols != [] && RunFrom(cols, cs, 0) == |cols| then PointGet(PinnedKey(cols, cs, |cols|))
    else TableScan(Matched(Keys.TablePrefix(t.layout), cols, cs))
  }

  /** `match_index`, for an index that is not of text. */
  function IndexAccess(t: TableDef, i: IndexDef, e: Expr): Option<Access>
    requires t.primaryKey != []
  {
    if i.partial.Some? && !Implies(e, i.partial.value) then None
    else
      var base, cols, cs := Keys.Header(Keys.INDEX_SPACE, i.layout.id), IndexColumns(t, i), ConstraintsOf(e);
      match Split(base, cols, cs)
      case Some(picks) => Some(if |picks| == 1 then IndexScan(i, picks[0].range) else IndexScans(i, picks))
      case None => Some(IndexScan(i, Matched(base, cols, cs)))
  }

  /** Contradictory bounds read nothing. */
  predicate AllEmpty(picks: seq<Pick>) { forall k | 0 <= k < |picks| :: IsEmpty(picks[k].range) }

  function Collapsed(a: Access): Access {
    match a
    case TableScan(range) => if IsEmpty(range) then Nothing else a
    case IndexScan(_, range) => if IsEmpty(range) then Nothing else a
    case IndexScans(_, picks) => if AllEmpty(picks) then Nothing else a
    case _ => a
  }

  /** Some conjunct can hold of no row. */
  predicate Unsatisfiable(e: Expr) {
    var cs := Conjuncts(e);
    exists k | 0 <= k < |cs| :: cs[k].Never? || (cs[k].CompareTo? && cs[k].value.Null?)
  }

  /** Every access the planner could settle on, whatever the costs say. */
  ghost predicate Planned(t: TableDef, indexes: seq<IndexDef>, e: Expr, a: Access)
    requires t.primaryKey != []
  {
    if Unsatisfiable(e) then a == Nothing
    else
      || a == Collapsed(PrimaryAccess(t, ConstraintsOf(e)))
      || (PointKeys(PrimaryColumns(t), ConstraintsOf(e)).Some? && a == PointGets(PointKeys(PrimaryColumns(t), ConstraintsOf(e)).value))
      || exists k | 0 <= k < |indexes| ::
           IndexAccess(t, indexes[k], e).Some? && a == Collapsed(IndexAccess(t, indexes[k], e).value)
  }

  // ----- Point reads

  const MAX_POINT_GETS: nat := 1024

  predicate OneVaries(cols: seq<KeyColumn>, cs: Constraints, p: nat)
    requires p < |cols|
  {
    forall k | 0 <= k < |cols| && k != p :: Equals(cols, cs, k).Some?
  }

  /** The key with `value` where the `IN` is, and the pinned values elsewhere. */
  function KeyWith(cols: seq<KeyColumn>, cs: Constraints, p: nat, value: Value, n: nat): seq<Value>
    requires p < |cols| && OneVaries(cols, cs, p) && n <= |cols|
    decreases |cols| - n
  {
    if n == |cols| then []
    else [if n == p then value else Equals(cols, cs, n).value] + KeyWith(cols, cs, p, value, n + 1)
  }

  function KeysWith(cols: seq<KeyColumn>, cs: Constraints, p: nat, values: seq<Value>, n: nat): (r: seq<seq<Value>>)
    requires p < |cols| && OneVaries(cols, cs, p) && n <= |values|
    ensures |r| == n && forall k | 0 <= k < n :: r[k] == KeyWith(cols, cs, p, values[k], 0)
  {
    if n == 0 then [] else KeysWith(cols, cs, p, values, n - 1) + [KeyWith(cols, cs, p, values[n - 1], 0)]
  }

  /** The keys in order, each once: `sort` and `dedup`, one key at a time. */
  function InsertKey(key: seq<Value>, keys: seq<seq<Value>>): seq<seq<Value>> {
    if keys == [] then [key]
    else match CompareTuples(key, keys[0], [])
         case Less => [key] + keys
         case Equal => keys
         case Greater => [keys[0]] + InsertKey(key, keys[1..])
  }

  function DistinctKeys(keys: seq<seq<Value>>, n: nat): seq<seq<Value>>
    requires n <= |keys|
  {
    if n == 0 then [] else InsertKey(keys[n - 1], DistinctKeys(keys, n - 1))
  }

  /** `point_get_set`: all columns pinned but one, and that one by an `IN`. */
  function PointKeys(cols: seq<KeyColumn>, cs: Constraints): Option<seq<seq<Value>>> {
    var p := RunFrom(cols, cs, 0);
    if p == |cols| || !OneVaries(cols, cs, p) then None
    else
      var anyOf := For(cs, cols[p].ordinal).anyOf;
      if anyOf.None? || anyOf.value == [] || |anyOf.value| > MAX_POINT_GETS then None
      else Some(DistinctKeys(KeysWith(cols, cs, p, anyOf.value, |anyOf.value|), |anyOf.value|))
  }

  lemma {:induction false} TuplesChain(a: seq<Value>, b: seq<Value>, c: seq<Value>)
    ensures Chain(CompareTuples(a, b, []), CompareTuples(b, c, []), CompareTuples(a, c, []))
  {
    if a != [] && b != [] && c != [] {
      CompareChain(a[0], b[0], c[0]);
      TuplesChain(a[1..], b[1..], c[1..]);
    }
    hide Compare;
  }

  lemma {:induction false} TuplesFlip(a: seq<Value>, b: seq<Value>)
    ensures CompareTuples(b, a, []) == CompareTuples(a, b, []).Reverse()
  {
    if a != [] && b != [] {
      CompareFlip(a[0], b[0]);
      TuplesFlip(a[1..], b[1..]);
    }
    hide Compare;
  }

  lemma {:induction false} TuplesSame(a: seq<Value>, b: seq<Value>)
    ensures CompareTuples(a, b, []) == Equal <==> SameValues(a, b)
  {
    hide Compare;
    if a != [] && b != [] {
      TuplesSame(a[1..], b[1..]);
      if SameValues(a, b) { assert Same(a[0], b[0]); }
      if Same(a[0], b[0]) && SameValues(a[1..], b[1..]) { SameValuesCons(a[0], a[1..], b[0], b[1..]); }
    }
  }

  ghost predicate KeysAbove(key: seq<Value>, keys: seq<seq<Value>>) {
    forall k | 0 <= k < |keys| :: CompareTuples(key, keys[k], []) == Less
  }

  /** Strictly ascending. */
  ghost predicate Ascends(keys: seq<seq<Value>>) { keys == [] || (KeysAbove(keys[0], keys[1..]) && Ascends(keys[1..])) }

  lemma {:induction false} AscendsAt(keys: seq<seq<Value>>, i: nat, j: nat)
    requires Ascends(keys) && i < j < |keys|
    ensures CompareTuples(keys[i], keys[j], []) == Less
  {
    hide CompareTuples;
    if i > 0 { AscendsAt(keys[1..], i - 1, j - 1); } else { assert keys[1..][j - 1] == keys[j]; }
  }

  lemma {:induction false} InsertKeyAbove(low: seq<Value>, key: seq<Value>, keys: seq<seq<Value>>)
    requires KeysAbove(low, keys) && CompareTuples(low, key, []) == Less
    ensures KeysAbove(low, InsertKey(key, keys))
  {
    hide CompareTuples;
    if keys != [] && CompareTuples(key, keys[0], []) == Greater { InsertKeyAbove(low, key, keys[1..]); }
  }

  lemma {:induction false} InsertKeyAscends(key: seq<Value>, keys: seq<seq<Value>>)
    requires Ascends(keys)
    ensures Ascends(InsertKey(key, keys))
  {
    hide CompareTuples;
    if keys != [] {
      match CompareTuples(key, keys[0], [])
      case Less =>
        assert ([key] + keys)[1..] == keys;
        forall k | 0 <= k < |keys| ensures CompareTuples(key, keys[k], []) == Less {
          if k > 0 { AscendsAt(keys, 0, k); TuplesChain(key, keys[0], keys[k]); }
        }
      case Equal =>
      case Greater =>
        TuplesFlip(key, keys[0]);
        InsertKeyAscends(key, keys[1..]);
        InsertKeyAbove(keys[0], key, keys[1..]);
        assert InsertKey(key, keys)[1..] == InsertKey(key, keys[1..]);
    } else {
      assert [key][1..] == [];
    }
  }

  lemma {:induction false} DistinctKeysAscend(keys: seq<seq<Value>>, n: nat)
    requires n <= |keys|
    ensures Ascends(DistinctKeys(keys, n))
  {
    hide InsertKey;
    if n > 0 {
      DistinctKeysAscend(keys, n - 1);
      InsertKeyAscends(keys[n - 1], DistinctKeys(keys, n - 1));
    }
  }

  /** The key, or one equal to it, is among them; and they are nothing but given keys. */
  lemma {:induction false} InsertKeyHolds(key: seq<Value>, keys: seq<seq<Value>>, x: seq<Value>)
    requires CompareTuples(key, x, []) == Equal || exists k | 0 <= k < |keys| :: CompareTuples(keys[k], x, []) == Equal
    ensures exists k | 0 <= k < |InsertKey(key, keys)| :: CompareTuples(InsertKey(key, keys)[k], x, []) == Equal
  {
    hide CompareTuples;
    var all := InsertKey(key, keys);
    if keys == [] {
      assert all[0] == key;
    } else {
      match CompareTuples(key, keys[0], [])
      case Less =>
        if k: nat :| k < |keys| && CompareTuples(keys[k], x, []) == Equal { assert all[k + 1] == keys[k]; } else { assert all[0] == key; }
      case Equal =>
        TuplesChain(key, keys[0], x);
        TuplesFlip(key, keys[0]);
      case Greater =>
        if CompareTuples(keys[0], x, []) == Equal {
          assert all[0] == keys[0];
        } else {
          if k: nat :| k < |keys| && CompareTuples(keys[k], x, []) == Equal { assert keys[1..][k - 1] == keys[k]; }
          InsertKeyHolds(key, keys[1..], x);
          var m: nat :| m < |InsertKey(key, keys[1..])| && CompareTuples(InsertKey(key, keys[1..])[m], x, []) == Equal;
          assert all[m + 1] == InsertKey(key, keys[1..])[m];
        }
    }
  }

  lemma {:induction false} DistinctKeysHold(keys: seq<seq<Value>>, n: nat, j: nat) returns (k: nat)
    requires j < n <= |keys|
    ensures k < |DistinctKeys(keys, n)| && CompareTuples(DistinctKeys(keys, n)[k], keys[j], []) == Equal
  {
    var before := DistinctKeys(keys, n - 1);
    if j < n - 1 {
      var m := DistinctKeysHold(keys, n - 1, j);
      assert CompareTuples(before[m], keys[j], []) == Equal;
    } else {
      TuplesFlip(keys[j], keys[j]);
    }
    hide CompareTuples, InsertKey;
    InsertKeyHolds(keys[n - 1], before, keys[j]);
    k :| 0 <= k < |DistinctKeys(keys, n)| && CompareTuples(DistinctKeys(keys, n)[k], keys[j], []) == Equal;
  }

  lemma {:induction false} InsertKeyFrom(key: seq<Value>, keys: seq<seq<Value>>, x: seq<Value>)
    ensures x in InsertKey(key, keys) ==> x == key || x in keys
  {
    hide CompareTuples;
    if keys != [] {
      InsertKeyFrom(key, keys[1..], x);
      assert keys == [keys[0]] + keys[1..];
    }
  }

  lemma {:induction false} DistinctKeysFrom(keys: seq<seq<Value>>, n: nat, x: seq<Value>)
    requires n <= |keys|
    ensures x in DistinctKeys(keys, n) ==> x in keys
  {
    hide InsertKey;
    if n > 0 {
      DistinctKeysFrom(keys, n - 1, x);
      InsertKeyFrom(keys[n - 1], DistinctKeys(keys, n - 1), x);
    }
  }

  lemma {:induction false} SameKeyFits(a: seq<Value>, b: seq<Value>)
    requires SameValues(a, b) && AllFit(b)
    ensures AllFit(a)
  {
    forall k: nat | k < |a| ensures Fits(a[k]) { SameFits(a[k], b[k]); }
    hide Same, Fits;
  }

  lemma {:induction false} SameKeysSameBytes(a: seq<Value>, b: seq<Value>)
    requires SameValues(a, b) && AllFit(a) && AllFit(b)
    ensures EncodeWith(a, []) == EncodeWith(b, [])
  {
    if a != [] {
      assert Same(a[0], b[0]);
      ElementsPrefixFree(a[0], b[0], Asc, []);
      SameKeysSameBytes(a[1..], b[1..]);
      hide Encode, Compare;
    }
  }

  lemma {:induction false} SameValuesCons(v: Value, a: seq<Value>, w: Value, b: seq<Value>)
    requires Same(v, w) && SameValues(a, b)
    ensures SameValues([v] + a, [w] + b)
  {
    hide Same;
  }

  lemma {:induction false} ConstraintSame(cs: Constraints, column: nat, row: Row)
    requires MeetsAll(cs, row) && For(cs, column).equals.Some?
    ensures Same(For(cs, column).equals.value, At(row, column))
  {
    assert Meets(For(cs, column), At(row, column));
    hide MeetsRanges, Same;
    SameFlip(At(row, column), For(cs, column).equals.value);
  }

  lemma {:induction false} KeyWithSame(cols: seq<KeyColumn>, cs: Constraints, p: nat, value: Value, n: nat, row: Row)
    requires p < |cols| && OneVaries(cols, cs, p) && n <= |cols| && MeetsAll(cs, row) && Same(value, At(row, cols[p].ordinal))
    ensures SameValues(KeyWith(cols, cs, p, value, n), ValuesFrom(row, cols, n))
    decreases |cols| - n
  {
    hide Same, MeetsAll;
    if n < |cols| {
      KeyWithSame(cols, cs, p, value, n + 1, row);
      var v := if n == p then value else Equals(cols, cs, n).value;
      if n != p { ConstraintSame(cs, cols[n].ordinal, row); }
      hide SameValues;
      SameValuesCons(v, KeyWith(cols, cs, p, value, n + 1), At(row, cols[n].ordinal), ValuesFrom(row, cols, n + 1));
    }
  }

  lemma {:induction false} ValuesFit(row: Row, cols: seq<KeyColumn>, n: nat)
    requires n <= |cols| && KeyFits(cols, row)
    ensures AllFit(ValuesFrom(row, cols, n))
    decreases |cols| - n
  {
    if n < |cols| {
      ValuesFit(row, cols, n + 1);
      assert Fits(At(row, cols[n].ordinal));
      hide Fits;
      AllFitCons(ValuesFrom(row, cols, n));
      assert ValuesFrom(row, cols, n)[1..] == ValuesFrom(row, cols, n + 1);
    }
  }

  lemma {:induction false} PinnedKeyIs(cols: seq<KeyColumn>, cs: Constraints, n: nat, k: nat)
    requires k < n <= |cols| && PinnedTo(cols, cs, n)
    ensures |PinnedKey(cols, cs, n)| == n && Equals(cols, cs, k).Some? && PinnedKey(cols, cs, n)[k] == Equals(cols, cs, k).value
  {
    if n > 1 { PinnedKeyIs(cols, cs, n - 1, if k < n - 1 then k else 0); }
  }

  lemma {:induction false} ValuesFromAt(row: Row, cols: seq<KeyColumn>, n: nat, k: nat)
    requires n <= k < |cols|
    ensures |ValuesFrom(row, cols, n)| == |cols| - n && ValuesFrom(row, cols, n)[k - n] == At(row, cols[k].ordinal)
    decreases |cols| - n
  {
    if n + 1 < |cols| { ValuesFromAt(row, cols, n + 1, if n < k then k else n + 1); }
  }

  // ----- No way of reading loses a row

  lemma {:induction false} SameKeyReached(t: TableDef, key: seq<Value>, row: Row)
    requires SameValues(key, PrimaryValues(t, row)) && KeyFits(PrimaryColumns(t), row)
    ensures RowKeyOf(t, row) == Keys.RowKey(t.layout, key)
  {
    ValuesFit(row, PrimaryColumns(t), 0);
    SameKeyFits(key, PrimaryValues(t, row));
    SameKeysSameBytes(key, PrimaryValues(t, row));
  }

  lemma {:induction false} PointGetReaches(t: TableDef, cs: Constraints, row: Row)
    requires MeetsAll(cs, row) && KeyFits(PrimaryColumns(t), row) && PinnedTo(PrimaryColumns(t), cs, |PrimaryColumns(t)|)
    ensures RowKeyOf(t, row) == Keys.RowKey(t.layout, PinnedKey(PrimaryColumns(t), cs, |PrimaryColumns(t)|))
  {
    var cols := PrimaryColumns(t);
    var key, pk := PinnedKey(cols, cs, |cols|), PrimaryValues(t, row);
    assert |key| == |pk| == |cols| by {
      if cols != [] {
        PinnedKeyIs(cols, cs, |cols|, 0);
        ValuesFromAt(row, cols, 0, 0);
      }
    }
    forall k: nat | k < |key| ensures Same(key[k], pk[k]) {
      PinnedKeyIs(cols, cs, |cols|, k);
      ValuesFromAt(row, cols, 0, k);
      ConstraintSame(cs, cols[k].ordinal, row);
    }
    SameKeyReached(t, key, row);
  }

  lemma {:induction false} PrimaryReaches(t: TableDef, e: Expr, row: Row, world: World)
    requires Admits(e, row, world) && KeyKeeps(PrimaryColumns(t), ConstraintsOf(e), row)
    ensures Reaches(t, PrimaryAccess(t, ConstraintsOf(e)), row, world)
  {
    var cols, cs := PrimaryColumns(t), ConstraintsOf(e);
    AdmittedMeets(e, row, world);
    RunIsPinned(cols, cs, 0);
    KeepsFits(cols, cs, row);
    hide Admits, ConstraintsOf, MeetsAll, KeyKeeps, KeyFits, RowKeyOf, PinnedKey, PrimaryColumns, Matched, Contains;
    if cols != [] && RunFrom(cols, cs, 0) == |cols| {
      PointGetReaches(t, cs, row);
    } else {
      RowKeyIsKey(t, row);
      NoRowLost(e, Keys.TablePrefix(t.layout), cols, row, [], world);
    }
  }

  lemma {:induction false} PointKeyFor(cols: seq<KeyColumn>, cs: Constraints, row: Row) returns (k: nat)
    requires PointKeys(cols, cs).Some? && MeetsAll(cs, row)
    ensures k < |PointKeys(cols, cs).value| && SameValues(PointKeys(cols, cs).value[k], ValuesFrom(row, cols, 0))
  {
    var p := RunFrom(cols, cs, 0);
    var o := cols[p].ordinal;
    var values := For(cs, o).anyOf.value;
    assert Meets(For(cs, o), At(row, o));
    var j: nat :| j < |values| && Same(values[j], At(row, o));
    var given := KeysWith(cols, cs, p, values, |values|);
    var keys := PointKeys(cols, cs).value;
    assert keys == DistinctKeys(given, |given|);
    hide MeetsAll, Same, RunFrom, KeyWith, DistinctKeys, CompareTuples, PointKeys, MeetsRanges;
    k := DistinctKeysHold(given, |given|, j);
    KeyWithSame(cols, cs, p, values[j], 0, row);
    var pk := ValuesFrom(row, cols, 0);
    TuplesSame(given[j], pk);
    TuplesChain(keys[k], given[j], pk);
    TuplesSame(keys[k], pk);
  }

  /** One of the point reads is of the row, whatever literals the predicate has. */
  lemma {:induction false} PointGetsReach(t: TableDef, e: Expr, row: Row, world: World)
    requires Admits(e, row, world) && KeyFits(PrimaryColumns(t), row) && PointKeys(PrimaryColumns(t), ConstraintsOf(e)).Some?
    ensures Reaches(t, PointGets(PointKeys(PrimaryColumns(t), ConstraintsOf(e)).value), row, world)
  {
    var keys := PointKeys(PrimaryColumns(t), ConstraintsOf(e)).value;
    hide Admits, ConstraintsOf, MeetsAll, KeyFits, RowKeyOf, PrimaryColumns, PointKeys, SameValues;
    AdmittedMeets(e, row, world);
    var k := PointKeyFor(PrimaryColumns(t), ConstraintsOf(e), row);
    SameKeyReached(t, keys[k], row);
  }

  lemma {:induction false} TruncatedTuple(vs: seq<Value>)
    ensures EncodeWith(TruncateAll(vs), []) == EncodeWith(vs, [])
  {
    if vs != [] {
      TruncateBytes(vs[0]);
      TruncatedTuple(vs[1..]);
      assert TruncateAll(vs)[1..] == TruncateAll(vs[1..]);
      hide Element, Truncate;
    }
  }

  /** Point reads stand in the order of their keys as they are written: ascending, where they can be
      written whole. */
  lemma {:induction false} PointGetsInOrder(t: TableDef, cs: Constraints, i: nat, k: nat)
    requires PointKeys(PrimaryColumns(t), cs).Some? && i < k < |PointKeys(PrimaryColumns(t), cs).value|
    ensures var keys := PointKeys(PrimaryColumns(t), cs).value;
            var order := Lex(Keys.RowKey(t.layout, keys[i]), Keys.RowKey(t.layout, keys[k]));
            && order == CompareTuples(TruncateAll(keys[i]), TruncateAll(keys[k]), [])
            && (AllFit(keys[i]) && AllFit(keys[k]) ==> order == Less)
  {
    PointKeysAscend(PrimaryColumns(t), cs, i, k);
    hide Lex, CompareTuples, PointKeys, TruncateAll, AllFit, EncodeWith;
    var keys := PointKeys(PrimaryColumns(t), cs).value;
    forall q | q == i || q == k
      ensures AllFit(TruncateAll(keys[q])) && Keys.RowKey(t.layout, TruncateAll(keys[q])) == Keys.RowKey(t.layout, keys[q])
      ensures AllFit(keys[q]) ==> TruncateAll(keys[q]) == keys[q]
    {
      TruncateAllBytes(keys[q]);
      TruncatedTuple(keys[q]);
      TruncateAllBelow(keys[q]);
    }
    hide Keys.RowKey;
    Keys.RowKeyOrder(t.layout, TruncateAll(keys[i]), TruncateAll(keys[k]));
  }

  lemma {:induction false} PointKeysAscend(cols: seq<KeyColumn>, cs: Constraints, i: nat, k: nat)
    requires PointKeys(cols, cs).Some? && i < k < |PointKeys(cols, cs).value|
    ensures CompareTuples(PointKeys(cols, cs).value[i], PointKeys(cols, cs).value[k], []) == Less
  {
    var p := RunFrom(cols, cs, 0);
    var values := For(cs, cols[p].ordinal).anyOf.value;
    var given := KeysWith(cols, cs, p, values, |values|);
    DistinctKeysAscend(given, |given|);
    hide CompareTuples, DistinctKeys, RunFrom, KeysWith, Ascends;
    AscendsAt(DistinctKeys(given, |given|), i, k);
  }

  ghost predicate AllKeyable(vs: seq<Value>) { forall k | 0 <= k < |vs| :: Keyable(vs[k]) }

  /** A key whose bytes are those of a key the schema lets in is equal to it. */
  lemma {:induction false} KeyableKey(t: Keys.Table, key: seq<Value>, pk: seq<Value>)
    requires AllKeyable(pk) && Keys.RowKey(t, key) == Keys.RowKey(t, pk)
    ensures CompareTuples(key, pk, []) == Equal
  {
    TruncateAllBytes(key);
    TruncatedTuple(key);
    assert AllFit(pk) by {
      forall v | v in pk ensures Fits(v) { var k: nat :| k < |pk| && pk[k] == v; assert Keyable(pk[k]); }
    }
    assert Keys.RowKey(t, TruncateAll(key)) == Keys.RowKey(t, pk);
    hide Keys.RowKey, Lex, EncodeWith, AllFit, Elements;
    Keys.RowKeyOrder(t, TruncateAll(key), pk);
    LexReflexive(Keys.RowKey(t, pk));
    TuplesKeyable(key, pk);
  }

  lemma {:induction false} TuplesKeyable(key: seq<Value>, pk: seq<Value>)
    requires AllKeyable(pk) && CompareTuples(TruncateAll(key), pk, []) == Equal
    ensures CompareTuples(key, pk, []) == Equal
  {
    if key != [] && pk != [] {
      assert Keyable(pk[0]) && TruncateAll(key)[1..] == TruncateAll(key[1..]);
      assert AllKeyable(pk[1..]) by { hide Keyable; }
      TuplesKeyable(key[1..], pk[1..]);
      KeyableIs(key[0], pk[0]);
      hide Compare, Truncate, AllKeyable, TruncateAll;
    }
  }

  /** No row is at two of the point reads, whatever the candidates are: a row's key holds nothing that
      could be cut short. */
  lemma {:induction false} PointGetsReadOnce(t: TableDef, cs: Constraints, row: Row, i: nat, k: nat)
    requires PointKeys(PrimaryColumns(t), cs).Some? && AllKeyable(PrimaryValues(t, row))
    requires i < k < |PointKeys(PrimaryColumns(t), cs).value|
    ensures var keys := PointKeys(PrimaryColumns(t), cs).value;
            !(RowKeyOf(t, row) == Keys.RowKey(t.layout, keys[i]) && RowKeyOf(t, row) == Keys.RowKey(t.layout, keys[k]))
  {
    PointKeysAscend(PrimaryColumns(t), cs, i, k);
    hide CompareTuples, PointKeys, PrimaryValues, Keys.RowKey, AllKeyable;
    var keys, pk := PointKeys(PrimaryColumns(t), cs).value, PrimaryValues(t, row);
    if RowKeyOf(t, row) == Keys.RowKey(t.layout, keys[i]) && RowKeyOf(t, row) == Keys.RowKey(t.layout, keys[k]) {
      KeyableKey(t.layout, keys[i], pk);
      KeyableKey(t.layout, keys[k], pk);
      TuplesFlip(keys[k], pk);
      TuplesChain(keys[i], pk, keys[k]);
    }
  }

  /** Each entry in one of the ranges an `IN` gave, or in the one range there is. */
  lemma {:induction false} SplitReaches(t: TableDef, i: IndexDef, e: Expr, row: Row, world: World, base: seq<Byte>)
    requires ValidTable(t) && ValidIndex(i) && Admits(e, row, world) && KeyKeeps(IndexColumns(t, i), ConstraintsOf(e), row)
    requires base == Keys.Header(Keys.INDEX_SPACE, i.layout.id) && Split(base, IndexColumns(t, i), ConstraintsOf(e)).Some?
    ensures var picks := Split(base, IndexColumns(t, i), ConstraintsOf(e)).value;
            exists k | 0 <= k < |picks| :: Contains(picks[k].range, EntryKeyOf(t, i, row))
  {
    var cols, cs := IndexColumns(t, i), ConstraintsOf(e);
    hide Admits, ConstraintsOf, KeyKeeps, EntryKeyOf, KeyOf, IndexColumns, Split, Contains, ValidIndex, MeetsAll;
    var rest := EntryKeyIsKey(t, i, row);
    AdmittedMeets(e, row, world);
    var k := SomeRangeHolds(base, cols, cs, row, rest);
  }

  lemma {:induction false} WholeReaches(t: TableDef, i: IndexDef, e: Expr, row: Row, world: World, base: seq<Byte>)
    requires ValidTable(t) && ValidIndex(i) && Admits(e, row, world) && KeyKeeps(IndexColumns(t, i), ConstraintsOf(e), row)
    requires base == Keys.Header(Keys.INDEX_SPACE, i.layout.id)
    ensures Contains(Matched(base, IndexColumns(t, i), ConstraintsOf(e)), EntryKeyOf(t, i, row))
  {
    hide Admits, ConstraintsOf, KeyKeeps, EntryKeyOf, KeyOf, IndexColumns, Matched, Contains, ValidIndex;
    var rest := EntryKeyIsKey(t, i, row);
    NoRowLost(e, base, IndexColumns(t, i), row, rest, world);
  }

  lemma {:induction false} IndexReaches(t: TableDef, i: IndexDef, e: Expr, row: Row, world: World)
    requires ValidTable(t) && ValidIndex(i) && Admits(e, row, world) && KeyKeeps(IndexColumns(t, i), ConstraintsOf(e), row)
    requires IndexAccess(t, i, e).Some?
    ensures Reaches(t, IndexAccess(t, i, e).value, row, world)
  {
    var base, cols, cs := Keys.Header(Keys.INDEX_SPACE, i.layout.id), IndexColumns(t, i), ConstraintsOf(e);
    hide Admits, ConstraintsOf, KeyKeeps, EntryKeyOf, IndexColumns, Implies, Split, Matched, Contains, ValidIndex;
    if i.partial.Some? { ImpliesSound(e, i.partial.value, row, world); }
    if Split(base, cols, cs).Some? { SplitReaches(t, i, e, row, world, base); }
    WholeReaches(t, i, e, row, world, base);
  }

  /** No entry is in two of the ranges, whatever the candidates are: the row comes back once. */
  lemma {:induction false} IndexScansReadOnce(t: TableDef, i: IndexDef, e: Expr, row: Row, j: nat, k: nat)
    requires ValidTable(t) && ValidIndex(i) && KeyFits(IndexColumns(t, i), row) && SplitsPlain(IndexColumns(t, i), ConstraintsOf(e), row)
    requires IndexAccess(t, i, e).Some? && IndexAccess(t, i, e).value.IndexScans?
    requires j < k < |IndexAccess(t, i, e).value.picks|
    ensures var picks, key := IndexAccess(t, i, e).value.picks, EntryKeyOf(t, i, row);
            !(Contains(picks[j].range, key) && Contains(picks[k].range, key))
  {
    var base, cols, cs := Keys.Header(Keys.INDEX_SPACE, i.layout.id), IndexColumns(t, i), ConstraintsOf(e);
    hide ConstraintsOf, KeyFits, SplitsPlain, EntryKeyOf, KeyOf, IndexColumns, Implies, Contains, ValidIndex, Split;
    var rest := EntryKeyIsKey(t, i, row);
    NoRowTwice(base, cols, cs, row, rest, j, k);
  }

  /** An access that collapses to nothing would have come upon nothing. */
  lemma {:induction false} CollapsedReaches(t: TableDef, a: Access, row: Row, world: World)
    ensures Reaches(t, Collapsed(a), row, world) <==> Reaches(t, a, row, world)
  {
    hide RowKeyOf, EntryKeyOf, Contains, IsEmpty;
    match a
    case TableScan(range) => if IsEmpty(range) { EmptyHoldsNothing(range, RowKeyOf(t, row)); }
    case IndexScan(i, range) => if IsEmpty(range) { EmptyHoldsNothing(range, EntryKeyOf(t, i, row)); }
    case IndexScans(i, picks) =>
      if AllEmpty(picks) {
        forall k | 0 <= k < |picks| ensures !Contains(picks[k].range, EntryKeyOf(t, i, row)) {
          EmptyHoldsNothing(picks[k].range, EntryKeyOf(t, i, row));
        }
      }
    case _ =>
  }

  lemma {:induction false} UnsatisfiableAdmitsNone(e: Expr, row: Row, world: World)
    requires Unsatisfiable(e)
    ensures !Admits(e, row, world)
  {
    var cs := Conjuncts(e);
    var k: nat :| k < |cs| && (cs[k].Never? || (cs[k].CompareTo? && cs[k].value.Null?));
    assert Evaluate(cs[k], row, world) != Yes && cs[k] in cs;
    ConjunctsHold(e, row, world);
    hide Evaluate, Conjuncts;
  }

  /** Where a conjunct compares with null or is never true, nothing is read at all. */
  lemma {:induction false} NullComparisonReadsNothing(t: TableDef, indexes: seq<IndexDef>, e: Expr, a: Access, k: nat)
    requires t.primaryKey != [] && Planned(t, indexes, e, a) && k < |Conjuncts(e)|
    requires Conjuncts(e)[k] == Never || (Conjuncts(e)[k].CompareTo? && Conjuncts(e)[k].value == Null)
    ensures a == Nothing
  {
    assert Unsatisfiable(e);
    hide ConstraintsOf, PointKeys, PrimaryAccess, IndexAccess, Collapsed, Conjuncts;
  }

  /** No bound on a column of a key leaves out the row's value. */
  ghost predicate RowKeeps(t: TableDef, indexes: seq<IndexDef>, cs: Constraints, row: Row)
    requires t.primaryKey != []
  {
    && KeyKeeps(PrimaryColumns(t), cs, row)
    && forall k | 0 <= k < |indexes| :: KeyKeeps(IndexColumns(t, indexes[k]), cs, row)
  }

  /** Whatever access is settled on, it comes upon every row the predicate admits. */
  lemma {:induction false} PlanReaches(t: TableDef, indexes: seq<IndexDef>, e: Expr, a: Access, row: Row, world: World)
    requires ValidTable(t) && (forall k | 0 <= k < |indexes| :: ValidIndex(indexes[k])) && Planned(t, indexes, e, a)
    requires RowKeeps(t, indexes, ConstraintsOf(e), row) && Admits(e, row, world)
    ensures Reaches(t, a, row, world)
  {
    KeepsFits(PrimaryColumns(t), ConstraintsOf(e), row);
    hide Admits, ConstraintsOf, KeyKeeps, KeyFits, PrimaryColumns, IndexColumns, Reaches, IndexAccess, PrimaryAccess, PointKeys, Collapsed, ValidIndex, Unsatisfiable;
    if Unsatisfiable(e) {
      UnsatisfiableAdmitsNone(e, row, world);
    } else if a == Collapsed(PrimaryAccess(t, ConstraintsOf(e))) {
      PrimaryReaches(t, e, row, world);
      CollapsedReaches(t, PrimaryAccess(t, ConstraintsOf(e)), row, world);
    } else if PointKeys(PrimaryColumns(t), ConstraintsOf(e)).Some? && a == PointGets(PointKeys(PrimaryColumns(t), ConstraintsOf(e)).value) {
      PointGetsReach(t, e, row, world);
    } else {
      var k: nat :| k < |indexes| && IndexAccess(t, indexes[k], e).Some? && a == Collapsed(IndexAccess(t, indexes[k], e).value);
      IndexReaches(t, indexes[k], e, row, world);
      CollapsedReaches(t, IndexAccess(t, indexes[k], e).value, row, world);
    }
  }

  /** A plan returns a row, read and then passed by the prepared residual, exactly when the
      predicate admits it: no index, bound or short cut changes an answer. */
  lemma {:induction false} PlanExact(t: TableDef, indexes: seq<IndexDef>, e: Expr, a: Access, row: Row, world: World)
    requires ValidTable(t) && (forall k | 0 <= k < |indexes| :: ValidIndex(indexes[k])) && Planned(t, indexes, e, a)
    requires RowKeeps(t, indexes, ConstraintsOf(e), row)
    ensures Reaches(t, a, row, world) && Admits(Prepared(e), row, world) <==> Admits(e, row, world)
  {
    PreparedSame(e, row, world);
    if Admits(e, row, world) { PlanReaches(t, indexes, e, a, row, world); }
    hide Evaluate, Reaches, Planned;
  }

  // ----- What the schema gives

  /** The range comparisons with a computed value lose none: it is of a type that a key column may
      have, or their literals are harmless. */
  ghost predicate ComputedKeeps(i: IndexDef, cs: Constraints) {
    KeyableTypes(i.layout.types)
    || forall k, n | 0 <= k < |i.columns| && 0 <= n < |For(cs, i.columns[k].ordinal).ranges| ::
         var r := For(cs, i.columns[k].ordinal).ranges[n]; Harmless(r.op, r.value)
  }

  lemma {:induction false} TypedIsKeyable(vs: seq<Value>, types: seq<ValueType>)
    requires RoundTrip.AllTyped(vs, types) && KeyableTypes(types)
    ensures AllKeyable(vs)
  {
    forall k | 0 <= k < |vs| ensures Keyable(vs[k]) { assert RoundTrip.Types(vs[k], types[k]); }
  }

  lemma {:induction false} ColumnsKeep(cols: seq<KeyColumn>, cs: Constraints, row: Row)
    requires AllKeyable(ValuesFrom(row, cols, 0))
    ensures KeyKeeps(cols, cs, row)
  {
    hide Fits, Harmless;
    forall k: nat | k < |cols| ensures Keeps(For(cs, cols[k].ordinal), At(row, cols[k].ordinal)) {
      ValuesFromAt(row, cols, 0, k);
      assert Keyable(At(row, cols[k].ordinal));
      KeyableKeeps(At(row, cols[k].ordinal), Null);
    }
  }

  lemma {:induction false} IndexKeeps(i: IndexDef, cs: Constraints, row: Row)
    requires Keys.IsIndexed(i.layout, ValuesFrom(row, i.columns, 0)) && ComputedKeeps(i, cs)
    ensures KeyKeeps(i.columns, cs, row)
  {
    hide Fits, Harmless, KeyableTypes;
    if KeyableTypes(i.layout.types) {
      TypedIsKeyable(ValuesFrom(row, i.columns, 0), i.layout.types);
      ColumnsKeep(i.columns, cs, row);
    } else {
      forall k: nat | k < |i.columns| ensures Keeps(For(cs, i.columns[k].ordinal), At(row, i.columns[k].ordinal)) {
        ValuesFromAt(row, i.columns, 0, k);
        assert At(row, i.columns[k].ordinal) in ValuesFrom(row, i.columns, 0);
      }
    }
  }

  /** A row the schema lets in is lost by no access, if the bounds on computed values lose none. */
  lemma {:induction false} SchemaKeeps(t: TableDef, indexes: seq<IndexDef>, cs: Constraints, row: Row)
    requires ValidTable(t) && Keys.IsKeyOf(t.layout, PrimaryValues(t, row))
    requires forall k | 0 <= k < |indexes| ::
               && ValidIndex(indexes[k]) && Keys.IsIndexed(indexes[k].layout, ValuesFrom(row, indexes[k].columns, 0))
               && (indexes[k].computed ==> ComputedKeeps(indexes[k], cs))
    ensures RowKeeps(t, indexes, cs, row) && AllKeyable(PrimaryValues(t, row))
  {
    var cols := PrimaryColumns(t);
    TypedIsKeyable(PrimaryValues(t, row), t.layout.keyTypes);
    ColumnsKeep(cols, cs, row);
    assert KeyKeeps([cols[0]], cs, row);
    hide Keeps, KeyableTypes, Keys.IsIndexed, Keys.IsKeyOf, AllKeyable;
    forall k | 0 <= k < |indexes| ensures KeyKeeps(IndexColumns(t, indexes[k]), cs, row) {
      IndexKeeps(indexes[k], cs, row);
      assert t.layout.tenant ==> IndexColumns(t, indexes[k]) == [cols[0]] + indexes[k].columns;
    }
  }

  /** Nothing in the entry of such a row could be cut short. */
  lemma {:induction false} EntryPlain(t: TableDef, i: IndexDef, cs: Constraints, row: Row)
    requires t.primaryKey != [] && AllKeyable(PrimaryValues(t, row)) && AllKeyable(ValuesFrom(row, i.columns, 0))
    ensures KeyFits(IndexColumns(t, i), row) && SplitsPlain(IndexColumns(t, i), cs, row)
  {
    var cols := IndexColumns(t, i);
    forall k: nat | k < |cols| ensures Keyable(At(row, cols[k].ordinal)) {
      if t.layout.tenant && k == 0 {
        ValuesFromAt(row, PrimaryColumns(t), 0, 0);
      } else {
        ValuesFromAt(row, i.columns, 0, if t.layout.tenant then k - 1 else k);
      }
    }
    hide PrimaryValues, RunFrom;
  }

  // ----- Where the literal is too long to write

  lemma {:induction false} LessIsCollected(column: nat, literal: Value)
    requires !literal.Null?
    ensures ConstraintsOf(CompareTo(column, Lt, literal)) == map[column := Constraint(None, [RangeTerm(Lt, literal)], None, None)]
    ensures !Unsatisfiable(CompareTo(column, Lt, literal))
  {
    var e := CompareTo(column, Lt, literal);
    assert Conjuncts(e) == [e];
    assert Collected([e], 0) == map[];
    assert [] + [RangeTerm(Lt, literal)] == [RangeTerm(Lt, literal)];
  }

  lemma {:induction false} NotBelowItself(c: KeyColumn, cs: Constraints, row: Row, literal: Value)
    requires cs == map[c.ordinal := Constraint(None, [RangeTerm(Lt, literal)], None, None)] && At(row, c.ordinal) == Truncate(literal)
    ensures !MeetsNext([c], Shortened(cs), RunFrom([c], cs, 0), row)
  {
    ShortenedFor(cs, c.ordinal);
    CompareSelf(Truncate(literal));
    hide Compare, Truncate, Shortened;
    assert RunFrom([c], cs, 0) == 0;
    assert ShortRanges([RangeTerm(Lt, literal)], 1) == [RangeTerm(Lt, Truncate(literal))];
    assert !MeetsRanges([RangeTerm(Lt, Truncate(literal))], 1, Truncate(literal));
  }

  lemma {:induction false} LessAdmits(column: nat, literal: Value, row: Row, world: World)
    requires !Fits(literal) && At(row, column) == Truncate(literal)
    ensures Admits(CompareTo(column, Lt, literal), row, world) && !literal.Null? && Fits(At(row, column))
  {
    TruncateBelow(literal);
    TruncateBytes(literal);
    assert !Truncate(literal).Null?;
    hide Compare, Truncate, Fits;
  }

  /** What the planner makes of the index: one scan. */
  lemma {:induction false} LessScans(t: TableDef, i: IndexDef, c: KeyColumn, literal: Value)
    requires ValidTable(t) && !t.layout.tenant && i.columns == [c] && i.partial.None? && !literal.Null?
    ensures IndexColumns(t, i) == [c]
    ensures var e := CompareTo(c.ordinal, Lt, literal);
            IndexAccess(t, i, e) == Some(IndexScan(i, Matched(Keys.Header(Keys.INDEX_SPACE, i.layout.id), [c], ConstraintsOf(e))))
  {
    var e := CompareTo(c.ordinal, Lt, literal);
    LessIsCollected(c.ordinal, literal);
    hide ConstraintsOf, Matched, Distinct, Picks, Arranged;
    assert RunFrom([c], ConstraintsOf(e), 0) == 0 && For(ConstraintsOf(e), c.ordinal).anyOf.None?;
  }

  /** It leaves out what is written of the literal. */
  lemma {:induction false} ScanLeavesOut(t: TableDef, i: IndexDef, c: KeyColumn, literal: Value, row: Row, world: World)
    requires ValidTable(t) && !t.layout.tenant && i.columns == [c] && ValidIndex(i)
    requires !Fits(literal) && At(row, c.ordinal) == Truncate(literal)
    ensures var cs := ConstraintsOf(CompareTo(c.ordinal, Lt, literal));
            !Contains(Matched(Keys.Header(Keys.INDEX_SPACE, i.layout.id), [c], cs), EntryKeyOf(t, i, row))
  {
    var e, cols := CompareTo(c.ordinal, Lt, literal), [c];
    LessAdmits(c.ordinal, literal, row, world);
    LessIsCollected(c.ordinal, literal);
    NotBelowItself(c, ConstraintsOf(e), row, literal);
    assert KeyFits(cols, row) && IndexColumns(t, i) == cols;
    hide Truncate, Fits, ConstraintsOf, KeyFits, Contains, Admits, Matched, KeyOf, MeetsNext, Shortened, EntryKeyOf, RunFrom, IndexColumns;
    var rest := EntryKeyIsKey(t, i, row);
    AdmittedInIff(e, Keys.Header(Keys.INDEX_SPACE, i.layout.id), cols, row, rest, world);
  }

  /** An index over a computed vector or array, and a literal of it too long to write: the scan the
      planner settles on leaves out a row that the predicate admits. */
  lemma {:induction false} LongLiteralLosesRow(t: TableDef, indexes: seq<IndexDef>, i: IndexDef, literal: Value, row: Row, world: World)
    returns (a: Access)
    requires ValidTable(t) && !t.layout.tenant && i in indexes && ValidIndex(i) && i.computed && i.partial.None?
    requires !Fits(literal) && At(row, i.columns[0].ordinal) == Truncate(literal)
    ensures var e := CompareTo(i.columns[0].ordinal, Lt, literal);
            Planned(t, indexes, e, a) && Admits(e, row, world) && !Reaches(t, a, row, world)
  {
    var c := i.columns[0];
    var e := CompareTo(c.ordinal, Lt, literal);
    assert i.columns == [c];
    LessAdmits(c.ordinal, literal, row, world);
    LessIsCollected(c.ordinal, literal);
    LessScans(t, i, c, literal);
    ScanLeavesOut(t, i, c, literal, row, world);
    hide Truncate, Fits, ConstraintsOf, Unsatisfiable, Contains, Admits, Matched, EntryKeyOf, IndexColumns, IndexAccess, PrimaryAccess, PointKeys, ValidIndex;
    var access := IndexAccess(t, i, e).value;
    CollapsedReaches(t, access, row, world);
    a := Collapsed(access);
  }
}
