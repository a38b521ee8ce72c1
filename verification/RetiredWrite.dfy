/** A soft delete, written without the uniqueness check, that takes another row's index entry. */
module RetiredWrite {
  import opened Options
  import opened ByteStrings
  import opened Values
  import opened Encoding
  import opened Tuples
  import opened Exprs
  import opened KeyMatch
  import opened Plans
  import opened Records
  import opened Transactions
  import Keys

  /** A key, an address, and when the row was retired. */
  const ACCOUNTS: TableDef := TableDef(Keys.Table(1, false, [TU64]), [0])

  /** One retired account for each address: a partial index of the retired rows. */
  const RETIRED: Schema := Schema(ACCOUNTS,
    [IndexDef(Keys.Index(1, true, [TU64], [Asc]), [KeyColumn(1, Asc)], false, Some(IsNull(2, true)))])

  /** One account for each address and retirement; a null keeps the live ones apart. */
  const PAIRED: Schema := Schema(ACCOUNTS,
    [IndexDef(Keys.Index(1, true, [TU64, TI64], [Asc, Asc]), [KeyColumn(1, Asc), KeyColumn(2, Asc)], false, None)])

  const GONE: Row := [U64(1), U64(7), I64(5)]
  const LIVE: Row := [U64(2), U64(7), Null]
  /** The live row as its soft delete writes it, by the same reading of the clock. */
  const LEAVING: Row := [U64(2), U64(7), I64(5)]

  const WORLD: World := iset{}

  predicate Ours(row: Row) { row == GONE || row == LIVE || row == LEAVING }

  lemma {:induction false} KeyShape(row: Row)
    requires Ours(row)
    ensures PrimaryValues(ACCOUNTS, row) == [row[0]]
  {
    var cols := PrimaryColumns(ACCOUNTS);
    assert cols == [KeyColumn(0, Asc)];
    assert ValuesFrom(row, cols, 1) == [];
  }

  lemma {:induction false} RowKeys()
    ensures RowKeyOf(ACCOUNTS, GONE) != RowKeyOf(ACCOUNTS, LIVE) && RowKeyOf(ACCOUNTS, LIVE) == RowKeyOf(ACCOUNTS, LEAVING)
  {
    KeyShape(GONE);
    KeyShape(LIVE);
    KeyShape(LEAVING);
    Keys.RowKeyOrder(ACCOUNTS.layout, [U64(1)], [U64(2)]);
    assert CompareTuples([U64(1)], [U64(2)], []) == Less;
    LexReflexive(Keys.RowKey(ACCOUNTS.layout, [U64(1)]));
    hide Keys.RowKey, Lex, CompareTuples;
  }

  lemma {:induction false} RetiredShape(row: Row)
    requires Ours(row)
    ensures ValuesFrom(row, RETIRED.indexes[0].columns, 0) == [row[1]] && RowValid(RETIRED, row)
  {
    KeyShape(row);
    var cols := RETIRED.indexes[0].columns;
    assert ValuesFrom(row, cols, 1) == [];
    assert Keys.IsIndexed(RETIRED.indexes[0].layout, [row[1]]);
  }

  lemma {:induction false} PairedShape(row: Row)
    requires Ours(row)
    ensures ValuesFrom(row, PAIRED.indexes[0].columns, 0) == [row[1], row[2]] && RowValid(PAIRED, row)
  {
    KeyShape(row);
    var cols := PAIRED.indexes[0].columns;
    assert ValuesFrom(row, cols, 2) == [];
    assert ValuesFrom(row, cols, 1) == [row[2]];
    assert Keys.IsIndexed(PAIRED.indexes[0].layout, [row[1], row[2]]);
  }

  /** The retired rows share an entry, and the live one has another or none. */
  ghost predicate Shares(s: Schema) {
    && s.table == ACCOUNTS && |s.indexes| == 1
    && RowValid(s, GONE) && RowValid(s, LIVE) && RowValid(s, LEAVING)
    && SlotOf(s, 0, GONE, WORLD).Some? && SlotOf(s, 0, LEAVING, WORLD) == SlotOf(s, 0, GONE, WORLD)
    && SlotOf(s, 0, LIVE, WORLD) != SlotOf(s, 0, GONE, WORLD)
  }

  lemma {:induction false} RetiredShares()
    ensures Shares(RETIRED)
  {
    RetiredShape(GONE);
    RetiredShape(LIVE);
    RetiredShape(LEAVING);
    assert !Keys.HasNull([U64(7)]);
    assert !Indexed(RETIRED.indexes[0], LIVE, WORLD);
    assert Indexed(RETIRED.indexes[0], GONE, WORLD) && Indexed(RETIRED.indexes[0], LEAVING, WORLD);
    hide EncodeWith, RowValid, Indexed, Keys.HasNull;
  }

  lemma {:induction false} PairsDiffer()
    ensures CompareTuples([U64(7), I64(5)], [U64(7), Null], [Asc, Asc]) == Greater
  {
    assert CompareTuples([I64(5)], [Null], [Asc]) == Greater;
    assert [U64(7), I64(5)][1..] == [I64(5)] && [U64(7), Null][1..] == [Null] && [Asc, Asc][1..] == [Asc];
  }

  lemma {:induction false} PairedKeysDiffer()
    ensures Keys.Enforces(PAIRED.indexes[0].layout, [U64(7), I64(5)])
    ensures EntryOf(PAIRED, 0, GONE).key != EntryOf(PAIRED, 0, LIVE).key
  {
    PairedShape(GONE);
    PairedShape(LIVE);
    KeyShape(GONE);
    KeyShape(LIVE);
    PairsDiffer();
    assert !Keys.HasNull([U64(7), I64(5)]);
    var t, x := ACCOUNTS.layout, PAIRED.indexes[0].layout;
    hide EncodeWith, CompareTuples, Keys.IsIndexed, Keys.IsKeyOf, Keys.HasNull, Keys.IndexStem, ValuesFrom;
    Keys.IndexKeysCollideIff(t, x, [U64(7), I64(5)], [U64(1)], [U64(7), Null], [U64(2)]);
  }

  lemma {:induction false} PairedShares()
    ensures Shares(PAIRED)
  {
    PairedShape(GONE);
    PairedShape(LIVE);
    PairedShape(LEAVING);
    PairedKeysDiffer();
    hide EncodeWith, RowValid, Keys.HasNull, ValuesFrom;
  }

  lemma {:induction false} Stored(s: Schema) returns (p: Part)
    requires Shares(s)
    ensures Consistent(s, p, WORLD) && p.rows == With(s, With(s, NO_ROWS, GONE), LIVE)
  {
    RowKeys();
    hide RowValid, SlotOf, RowKeyOf, Mirrors;
    var p0 := Part(NO_ROWS, Empty(|s.indexes|));
    EmptyIsConsistent(s, WORLD);
    assert AllFree(s, p0.rows, GONE, WORLD);
    CheckedWrite(s, p0, GONE, WORLD);
    var p1 := Write(s, p0, GONE, WORLD, true).0;
    hide Consistent;
    assert p1.rows == With(s, NO_ROWS, GONE);
    assert AllFree(s, p1.rows, LIVE, WORLD);
    CheckedWrite(s, p1, LIVE, WORLD);
    p := Write(s, p1, LIVE, WORLD, true).0;
  }

  /** The soft delete goes through, and afterwards one entry stands for two rows. */
  lemma {:induction false} Tears(s: Schema) returns (p: Part)
    requires Shares(s)
    ensures var key := RowKeyOf(s.table, LEAVING);
            && Consistent(s, p, WORLD) && key in p.rows && p.rows[key] == LIVE
            && Write(s, p, LEAVING, WORLD, false).1 && !Consistent(s, Write(s, p, LEAVING, WORLD, false).0, WORLD)
  {
    p := Stored(s);
    RowKeys();
    hide RowValid, SlotOf, RowKeyOf, Consistent, Mirrors, Write;
    var key, other := RowKeyOf(s.table, LEAVING), RowKeyOf(s.table, GONE);
    assert other in p.rows && p.rows[other] == GONE && key in p.rows && p.rows[key] == LIVE;
    assert !Free(s, 0, p.rows, LEAVING, WORLD);
    UncheckedWrite(s, p, LEAVING, WORLD);
  }

  /** So it is with a partial index that starts to admit the row, and with an index that holds the
      retirement itself, where two rows are retired at one reading of the clock. */
  lemma {:induction false} RetiredRowTears() returns (p: Part, q: Part)
    ensures var key := RowKeyOf(ACCOUNTS, LEAVING);
            && Consistent(RETIRED, p, WORLD) && key in p.rows && p.rows[key] == LIVE
            && !Consistent(RETIRED, Write(RETIRED, p, LEAVING, WORLD, false).0, WORLD)
            && Consistent(PAIRED, q, WORLD) && key in q.rows && q.rows[key] == LIVE
            && !Consistent(PAIRED, Write(PAIRED, q, LEAVING, WORLD, false).0, WORLD)
  {
    RetiredShares();
    PairedShares();
    hide Shares, Consistent, Write, RowKeyOf;
    assert RETIRED.table == ACCOUNTS == PAIRED.table;
    p := Tears(RETIRED);
    q := Tears(PAIRED);
  }
}
