/** A refused update that leaves a row without its index entry. */
module TornWrite {
  import opened Options
  import opened ByteStrings
  import opened Values
  import opened Encoding
  import opened Tuples
  import opened Exprs
  import opened KeyMatch
  import opened Plans
  import opened Records
  import opened Transactions
  import Keys

  /** One key column, and a unique index on the other. */
  const USERS: Schema := Schema(
    TableDef(Keys.Table(1, false, [TU64]), [0]),
    [IndexDef(Keys.Index(1, true, [TU64], [Asc]), [KeyColumn(1, Asc)], false, None)])

  const FIRST: Row := [U64(1), U64(7)]
  const SECOND: Row := [U64(2), U64(8)]
  /** The first row, with the value the second has. */
  const MOVED: Row := [U64(1), U64(8)]

  const WORLD: World := iset{}

  lemma {:induction false} OneValue(row: Row, column: nat, cols: seq<KeyColumn>)
    requires cols == [KeyColumn(column, Asc)]
    ensures ValuesFrom(row, cols, 0) == [At(row, column)]
  {
    assert ValuesFrom(row, cols, 1) == [];
  }

  lemma {:induction false} Shape(row: Row)
    requires |row| == 2
    ensures PrimaryValues(USERS.table, row) == [row[0]] && ValuesFrom(row, USERS.indexes[0].columns, 0) == [row[1]]
  {
    assert PrimaryColumns(USERS.table) == [KeyColumn(0, Asc)];
    OneValue(row, 0, PrimaryColumns(USERS.table));
    OneValue(row, 1, USERS.indexes[0].columns);
  }

  lemma {:induction false} RowsValid(row: Row)
    requires row == FIRST || row == SECOND || row == MOVED
    ensures RowValid(USERS, row)
  {
    Shape(row);
  }

  lemma {:induction false} KeysDiffer()
    ensures RowKeyOf(USERS.table, FIRST) != RowKeyOf(USERS.table, SECOND)
    ensures RowKeyOf(USERS.table, FIRST) == RowKeyOf(USERS.table, MOVED)
  {
    Shape(FIRST);
    Shape(SECOND);
    Shape(MOVED);
    Keys.RowKeyOrder(USERS.table.layout, [U64(1)], [U64(2)]);
    assert CompareTuples([U64(1)], [U64(2)], []) == Less;
    LexReflexive(Keys.RowKey(USERS.table.layout, [U64(1)]));
    hide Keys.RowKey, Lex, CompareTuples;
  }

  lemma {:induction false} SlotsOfRows()
    ensures SlotOf(USERS, 0, FIRST, WORLD).Some? && SlotOf(USERS, 0, FIRST, WORLD) != SlotOf(USERS, 0, SECOND, WORLD)
    ensures SlotOf(USERS, 0, MOVED, WORLD) == SlotOf(USERS, 0, SECOND, WORLD)
  {
    Shape(FIRST);
    Shape(SECOND);
    Shape(MOVED);
    RowsValid(FIRST);
    RowsValid(SECOND);
    var t, x := USERS.table.layout, USERS.indexes[0].layout;
    assert Keys.IsIndexed(x, [U64(7)]) && Keys.IsIndexed(x, [U64(8)]);
    assert CompareTuples([U64(7)], [U64(8)], x.directions) == Less;
    Keys.IndexKeysCollideIff(t, x, [U64(7)], [U64(1)], [U64(8)], [U64(2)]);
    assert !Keys.HasNull([U64(8)]);
    hide CompareTuples, EncodeWith, RowValid;
  }

  lemma {:induction false} Stored() returns (p: Part)
    ensures Consistent(USERS, p, WORLD)
    ensures p.rows == With(USERS, With(USERS, NO_ROWS, FIRST), SECOND)
  {
    RowsValid(FIRST);
    RowsValid(SECOND);
    KeysDiffer();
    SlotsOfRows();
    hide RowValid, SlotOf, RowKeyOf, Mirrors;
    var p0 := Part(NO_ROWS, Empty(|USERS.indexes|));
    EmptyIsConsistent(USERS, WORLD);
    assert AllFree(USERS, p0.rows, FIRST, WORLD);
    CheckedWrite(USERS, p0, FIRST, WORLD);
    var p1 := Write(USERS, p0, FIRST, WORLD, true).0;
    hide Consistent;
    assert p1.rows == With(USERS, NO_ROWS, FIRST);
    assert AllFree(USERS, p1.rows, SECOND, WORLD);
    CheckedWrite(USERS, p1, SECOND, WORLD);
    p := Write(USERS, p1, SECOND, WORLD, true).0;
  }

  /** Two users; the first takes the address of the second. The update is refused, and by then the
      first row's own entry is gone. */
  lemma {:induction false} RefusedUpdateTears() returns (p: Part)
    ensures Consistent(USERS, p, WORLD) && RowValid(USERS, MOVED)
    ensures !Write(USERS, p, MOVED, WORLD, true).1 && !Consistent(USERS, Write(USERS, p, MOVED, WORLD, true).0, WORLD)
  {
    p := Stored();
    RowsValid(MOVED);
    KeysDiffer();
    SlotsOfRows();
    hide RowValid, SlotOf, RowKeyOf, Consistent, Mirrors, Write;
    var key, other := RowKeyOf(USERS.table, MOVED), RowKeyOf(USERS.table, SECOND);
    assert other in p.rows && p.rows[other] == SECOND && key in p.rows && p.rows[key] == FIRST;
    assert !Free(USERS, 0, p.rows, MOVED, WORLD);
    CheckedWrite(USERS, p, MOVED, WORLD);
    RefusedWrite(USERS, p, MOVED, WORLD);
    assert OldSlot(USERS, 0, p.rows, MOVED, WORLD) == SlotOf(USERS, 0, FIRST, WORLD);
  }
}
