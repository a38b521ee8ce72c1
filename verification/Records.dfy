/** Writing rows: every index holds an entry for each of its rows, and for nothing else. */
module Records {
  import opened Options
  import opened ByteStrings
  import opened Tuples
  import opened Exprs
  import opened Plans
  import Keys

  datatype Schema = Schema(table: TableDef, indexes: seq<IndexDef>)

  /** A table's part of the store: its rows by row key, and the entries of each index by entry key.
      The headers of the keys keep the parts of the keyspace apart. */
  datatype Part = Part(rows: map<seq<Byte>, Row>, slots: seq<map<seq<Byte>, seq<Byte>>>)

  ghost predicate RowValid(s: Schema, row: Row) {
    && Keys.IsKeyOf(s.table.layout, PrimaryValues(s.table, row))
    && forall i | 0 <= i < |s.indexes| :: Keys.IsIndexed(s.indexes[i].layout, ValuesFrom(row, s.indexes[i].columns, 0))
  }

  function EntryOf(s: Schema, i: nat, row: Row): Keys.Entry
    requires i < |s.indexes|
  {
    Keys.IndexEntry(s.table.layout, s.indexes[i].layout, ValuesFrom(row, s.indexes[i].columns, 0), PrimaryValues(s.table, row))
  }

  /** The key of the row's entry, if the index holds the row. */
  function SlotOf(s: Schema, i: nat, row: Row, world: World): Option<seq<Byte>>
    requires i < |s.indexes|
  {
    if Indexed(s.indexes[i], row, world) then Some(EntryOf(s, i, row).key) else None
  }

  predicate Enforced(s: Schema, i: nat, row: Row)
    requires i < |s.indexes|
  {
    Keys.Enforces(s.indexes[i].layout, ValuesFrom(row, s.indexes[i].columns, 0))
  }

  function PkBytes(s: Schema, row: Row): seq<Byte> { EncodeWith(PrimaryValues(s.table, row), []) }

  // ----- What the store should be

  ghost predicate RowsOk(s: Schema, rows: map<seq<Byte>, Row>) {
    forall k | k in rows :: RowKeyOf(s.table, rows[k]) == k && RowValid(s, rows[k])
  }

  /** The row at `k` has its entry. */
  ghost predicate HasEntry(s: Schema, i: nat, rows: map<seq<Byte>, Row>, slots: map<seq<Byte>, seq<Byte>>, world: World, k: seq<Byte>)
    requires i < |s.indexes| && k in rows
  {
    var e := SlotOf(s, i, rows[k], world);
    e.Some? ==> e.value in slots && slots[e.value] == EntryOf(s, i, rows[k]).value
  }

  /** Some row is behind the entry at `e`. */
  ghost predicate HasRow(s: Schema, i: nat, rows: map<seq<Byte>, Row>, world: World, e: seq<Byte>)
    requires i < |s.indexes|
  {
    exists k :: k in rows && SlotOf(s, i, rows[k], world) == Some(e)
  }

  /** Index `i` holds an entry for each row it admits, and no other entry. */
  ghost predicate Mirrors(s: Schema, i: nat, rows: map<seq<Byte>, Row>, slots: map<seq<Byte>, seq<Byte>>, world: World)
    requires i < |s.indexes|
  {
    && (forall k | k in rows :: HasEntry(s, i, rows, slots, world, k))
    && (forall e | e in slots :: HasRow(s, i, rows, world, e))
  }

  ghost predicate Consistent(s: Schema, p: Part, world: World) {
    && RowsOk(s, p.rows) && |p.slots| == |s.indexes|
    && forall i | 0 <= i < |s.indexes| :: Mirrors(s, i, p.rows, p.slots[i], world)
  }

  // ----- One index, one write

  datatype Step = Step(slots: map<seq<Byte>, seq<Byte>>, ok: bool)

  /** The body of the loop over the indexes in `write_row_with`. */
  function WriteEntry(slots: map<seq<Byte>, seq<Byte>>, before: Option<seq<Byte>>, after: Option<Keys.Entry>, enforced: bool, pk: seq<Byte>, verify: bool): Step {
    var kept := if before.Some? && !(after.Some? && after.value.key == before.value) then slots - {before.value} else slots;
    if after.None? || before == Some(after.value.key) then Step(kept, true)
    else if verify && enforced && after.value.key in kept && kept[after.value.key] != pk then Step(kept, false)
    else Step(kept[after.value.key := after.value.value], true)
  }

  function OldSlot(s: Schema, i: nat, rows: map<seq<Byte>, Row>, row: Row, world: World): Option<seq<Byte>>
    requires i < |s.indexes|
  {
    var k := RowKeyOf(s.table, row);
    if k in rows then SlotOf(s, i, rows[k], world) else None
  }

  function NewEntry(s: Schema, i: nat, row: Row, world: World): Option<Keys.Entry>
    requires i < |s.indexes|
  {
    if Indexed(s.indexes[i], row, world) then Some(EntryOf(s, i, row)) else None
  }

  function StepAt(s: Schema, i: nat, rows: map<seq<Byte>, Row>, slots: map<seq<Byte>, seq<Byte>>, row: Row, world: World, verify: bool): Step
    requires i < |s.indexes|
  {
    WriteEntry(slots, OldSlot(s, i, rows, row, world), NewEntry(s, i, row, world), Enforced(s, i, row), PkBytes(s, row), verify)
  }

  /** No other row has the entry the new row would have. */
  ghost predicate Free(s: Schema, i: nat, rows: map<seq<Byte>, Row>, row: Row, world: World)
    requires i < |s.indexes|
  {
    var e := SlotOf(s, i, row, world);
    e.Some? ==> forall k | k in rows && k != RowKeyOf(s.table, row) :: SlotOf(s, i, rows[k], world) != e
  }

  /** Two rows share an entry's key only in an index that keeps them apart by its value. */
  lemma {:induction false} SharedSlot(s: Schema, i: nat, a: Row, b: Row)
    requires i < |s.indexes| && RowValid(s, a) && RowValid(s, b)
    requires RowKeyOf(s.table, a) != RowKeyOf(s.table, b) && EntryOf(s, i, a).key == EntryOf(s, i, b).key
    ensures Enforced(s, i, a) && EntryOf(s, i, a).value == PkBytes(s, a)
    ensures Enforced(s, i, b) && EntryOf(s, i, b).value == PkBytes(s, b) && PkBytes(s, a) != PkBytes(s, b)
  {
    var t, x := s.table.layout, s.indexes[i];
    var u, p := ValuesFrom(a, x.columns, 0), PrimaryValues(s.table, a);
    var v, q := ValuesFrom(b, x.columns, 0), PrimaryValues(s.table, b);
    assert Keys.IsIndexed(x.layout, u) && Keys.IsIndexed(x.layout, v);
    Keys.IndexKeysCollideIff(t, x.layout, u, p, v, q);
    Keys.IndexKeysCollideIff(t, x.layout, v, q, u, p);
    Keys.StorableFits(p);
    Keys.StorableFits(q);
    TupleOrder(p, q, []);
    TupleOrder(q, p, []);
    LexAntisymmetric(EncodeWith(p, []), EncodeWith(q, []));
    hide EncodeWith, CompareTuples, ValuesFrom, PrimaryValues, Lex, Keys.TenantOf, Keys.IndexStem, Keys.IsKeyOf, Keys.IsIndexed;
  }

  /** Where the index mirrors the rows, no two rows share an entry. */
  lemma {:induction false} SlotsDistinct(s: Schema, i: nat, rows: map<seq<Byte>, Row>, slots: map<seq<Byte>, seq<Byte>>, world: World, j: seq<Byte>, k: seq<Byte>)
    requires i < |s.indexes| && RowsOk(s, rows) && Mirrors(s, i, rows, slots, world)
    requires j in rows && k in rows && j != k
    ensures SlotOf(s, i, rows[j], world).None? || SlotOf(s, i, rows[j], world) != SlotOf(s, i, rows[k], world)
  {
    assert HasEntry(s, i, rows, slots, world, j) && HasEntry(s, i, rows, slots, world, k);
    hide RowValid, EntryOf, Mirrors, RowKeyOf, Enforced, PkBytes;
    if SlotOf(s, i, rows[j], world).Some? && SlotOf(s, i, rows[j], world) == SlotOf(s, i, rows[k], world) {
      SharedSlot(s, i, rows[j], rows[k]);
    }
  }

  lemma {:induction false} KeptIsFree(s: Schema, i: nat, rows: map<seq<Byte>, Row>, slots: map<seq<Byte>, seq<Byte>>, row: Row, world: World)
    requires i < |s.indexes| && RowsOk(s, rows) && Mirrors(s, i, rows, slots, world)
    requires OldSlot(s, i, rows, row, world) == SlotOf(s, i, row, world)
    ensures Free(s, i, rows, row, world)
  {
    var e, key := SlotOf(s, i, row, world), RowKeyOf(s.table, row);
    hide RowsOk, SlotOf, RowKeyOf, Mirrors;
    if e.Some? {
      forall k | k in rows && k != key ensures SlotOf(s, i, rows[k], world) != e {
        SlotsDistinct(s, i, rows, slots, world, key, k);
      }
    }
  }

  /** Taking the row's own old entry away leaves another row's where it was. */
  lemma {:induction false} TakenIsKept(s: Schema, i: nat, rows: map<seq<Byte>, Row>, slots: map<seq<Byte>, seq<Byte>>, row: Row, world: World, k: seq<Byte>)
    requires i < |s.indexes| && k in rows && HasEntry(s, i, rows, slots, world, k)
    requires SlotOf(s, i, rows[k], world) == SlotOf(s, i, row, world)
    requires SlotOf(s, i, row, world).Some? && OldSlot(s, i, rows, row, world) != SlotOf(s, i, row, world)
    requires Enforced(s, i, row) && EntryOf(s, i, rows[k]).value != PkBytes(s, row)
    ensures !StepAt(s, i, rows, slots, row, world, true).ok
  {
    hide EntryOf, RowKeyOf, Enforced, PkBytes;
  }

  /** A slot another row holds is found taken. */
  lemma {:induction false} TakenIsRefused(s: Schema, i: nat, rows: map<seq<Byte>, Row>, slots: map<seq<Byte>, seq<Byte>>, row: Row, world: World, k: seq<Byte>)
    requires i < |s.indexes| && RowsOk(s, rows) && RowValid(s, row) && Mirrors(s, i, rows, slots, world)
    requires SlotOf(s, i, row, world).Some? && OldSlot(s, i, rows, row, world) != SlotOf(s, i, row, world)
    requires k in rows && k != RowKeyOf(s.table, row) && SlotOf(s, i, rows[k], world) == SlotOf(s, i, row, world)
    ensures !StepAt(s, i, rows, slots, row, world, true).ok
  {
    assert HasEntry(s, i, rows, slots, world, k);
    hide RowValid, EntryOf, RowKeyOf, Enforced, PkBytes, Mirrors, StepAt, HasEntry, OldSlot;
    SharedSlot(s, i, row, rows[k]);
    TakenIsKept(s, i, rows, slots, row, world, k);
  }

  lemma {:induction false} RefusedIsTaken(s: Schema, i: nat, rows: map<seq<Byte>, Row>, slots: map<seq<Byte>, seq<Byte>>, row: Row, world: World)
    requires i < |s.indexes| && Mirrors(s, i, rows, slots, world) && !StepAt(s, i, rows, slots, row, world, true).ok
    ensures !Free(s, i, rows, row, world)
  {
    var e := SlotOf(s, i, row, world);
    assert HasRow(s, i, rows, world, e.value);
    hide EntryOf, RowKeyOf, Enforced, PkBytes, Mirrors;
    var k :| k in rows && SlotOf(s, i, rows[k], world) == Some(e.value);
  }

  /** The uniqueness check refuses exactly when another row holds the slot. */
  lemma {:induction false} CheckIffFree(s: Schema, i: nat, rows: map<seq<Byte>, Row>, slots: map<seq<Byte>, seq<Byte>>, row: Row, world: World)
    requires i < |s.indexes| && RowsOk(s, rows) && RowValid(s, row) && Mirrors(s, i, rows, slots, world)
    ensures StepAt(s, i, rows, slots, row, world, true).ok <==> Free(s, i, rows, row, world)
  {
    if !StepAt(s, i, rows, slots, row, world, true).ok {
      RefusedIsTaken(s, i, rows, slots, row, world);
    } else if OldSlot(s, i, rows, row, world) == SlotOf(s, i, row, world) {
      KeptIsFree(s, i, rows, slots, row, world);
    } else if SlotOf(s, i, row, world).Some? {
      hide StepAt, RowsOk, RowValid, Mirrors, OldSlot, SlotOf, RowKeyOf;
      forall k | k in rows && k != RowKeyOf(s.table, row) ensures SlotOf(s, i, rows[k], world) != SlotOf(s, i, row, world) {
        if SlotOf(s, i, rows[k], world) == SlotOf(s, i, row, world) { TakenIsRefused(s, i, rows, slots, row, world, k); }
      }
    }
  }

  // ----- What a step leaves

  /** After the step: the row's old entry is gone unless it is the new one, the new one is there, and
      nothing else changed. */
  lemma {:induction false} StepLeaves(s: Schema, i: nat, rows: map<seq<Byte>, Row>, slots: map<seq<Byte>, seq<Byte>>, row: Row, world: World, verify: bool, e: seq<Byte>)
    requires i < |s.indexes| && StepAt(s, i, rows, slots, row, world, verify).ok
    requires OldSlot(s, i, rows, row, world).Some? ==> OldSlot(s, i, rows, row, world).value in slots
    ensures var after, had, has := StepAt(s, i, rows, slots, row, world, verify).slots, OldSlot(s, i, rows, row, world), SlotOf(s, i, row, world);
            && (has == Some(e) ==> e in after && (had != has ==> after[e] == EntryOf(s, i, row).value) && (had == has ==> after[e] == slots[e]))
            && (has != Some(e) && had == Some(e) ==> e !in after)
            && (has != Some(e) && had != Some(e) ==> (e in after <==> e in slots) && (e in after ==> after[e] == slots[e]))
  {
    hide EntryOf, Indexed, Enforced, PkBytes, RowKeyOf;
  }

  lemma {:induction false} OwnValueKept(s: Schema, i: nat, a: Row, b: Row)
    requires i < |s.indexes| && RowValid(s, a) && RowValid(s, b)
    requires RowKeyOf(s.table, a) == RowKeyOf(s.table, b) && EntryOf(s, i, a).key == EntryOf(s, i, b).key
    ensures EntryOf(s, i, a).value == EntryOf(s, i, b).value
  {
    var t, x := s.table.layout, s.indexes[i];
    var u, p := ValuesFrom(a, x.columns, 0), PrimaryValues(s.table, a);
    var v, q := ValuesFrom(b, x.columns, 0), PrimaryValues(s.table, b);
    assert Keys.IsIndexed(x.layout, u) && Keys.IsIndexed(x.layout, v);
    Keys.IndexKeysCollideIff(t, x.layout, u, p, v, q);
    Keys.EqualTuplesShareNulls(u, v, x.layout.directions);
    var h := Keys.TablePrefix(t);
    assert EncodeWith(p, []) == (h + EncodeWith(p, []))[|h|..] && EncodeWith(q, []) == (h + EncodeWith(q, []))[|h|..];
    hide EncodeWith, CompareTuples, ValuesFrom, PrimaryValues, Keys.TenantOf, Keys.IndexStem, Keys.HasNull;
  }

  function With(s: Schema, rows: map<seq<Byte>, Row>, row: Row): map<seq<Byte>, Row> { rows[RowKeyOf(s.table, row) := row] }

  lemma {:induction false} WithOk(s: Schema, rows: map<seq<Byte>, Row>, row: Row)
    requires RowsOk(s, rows) && RowValid(s, row)
    ensures RowsOk(s, With(s, rows, row))
  {
    hide RowValid, RowKeyOf;
  }

  /** Every row has its entry after the step. */
  lemma {:induction false} EntryAfter(s: Schema, i: nat, rows: map<seq<Byte>, Row>, slots: map<seq<Byte>, seq<Byte>>, row: Row, world: World, verify: bool, k: seq<Byte>)
    requires i < |s.indexes| && RowsOk(s, rows) && RowValid(s, row) && Mirrors(s, i, rows, slots, world)
    requires Free(s, i, rows, row, world) && StepAt(s, i, rows, slots, row, world, verify).ok && k in With(s, rows, row)
    ensures HasEntry(s, i, With(s, rows, row), StepAt(s, i, rows, slots, row, world, verify).slots, world, k)
  {
    var key, before := RowKeyOf(s.table, row), OldSlot(s, i, rows, row, world);
    var e := SlotOf(s, i, With(s, rows, row)[k], world);
    if key in rows { assert HasEntry(s, i, rows, slots, world, key); }
    if k in rows { assert HasEntry(s, i, rows, slots, world, k); }
    if e.Some? {
      StepLeaves(s, i, rows, slots, row, world, verify, e.value);
      if k == key {
        if before == e { OwnValueKept(s, i, rows[key], row); }
      } else if key in rows {
        SlotsDistinct(s, i, rows, slots, world, key, k);
      }
    }
    hide StepAt, RowKeyOf, EntryOf, RowValid, Mirrors, Indexed;
  }

  lemma {:induction false} RowBehind(s: Schema, i: nat, rows: map<seq<Byte>, Row>, slots: map<seq<Byte>, seq<Byte>>, row: Row, world: World, verify: bool, e: seq<Byte>)
    requires i < |s.indexes| && Mirrors(s, i, rows, slots, world)
    requires StepAt(s, i, rows, slots, row, world, verify).ok && e in StepAt(s, i, rows, slots, row, world, verify).slots
    ensures HasRow(s, i, With(s, rows, row), world, e)
  {
    var key := RowKeyOf(s.table, row);
    if key in rows { assert HasEntry(s, i, rows, slots, world, key); }
    StepLeaves(s, i, rows, slots, row, world, verify, e);
    hide StepAt, RowKeyOf, EntryOf, HasEntry, Indexed;
    if SlotOf(s, i, row, world) == Some(e) {
      assert With(s, rows, row)[key] == row;
    } else {
      assert HasRow(s, i, rows, world, e);
      var k :| k in rows && SlotOf(s, i, rows[k], world) == Some(e);
      assert k != key && With(s, rows, row)[k] == rows[k];
    }
  }

  /** Where the slot is free the step keeps the index a mirror of the rows. */
  lemma {:induction false} StepKeeps(s: Schema, i: nat, rows: map<seq<Byte>, Row>, slots: map<seq<Byte>, seq<Byte>>, row: Row, world: World, verify: bool)
    requires i < |s.indexes| && RowsOk(s, rows) && RowValid(s, row) && Mirrors(s, i, rows, slots, world) && Free(s, i, rows, row, world)
    ensures StepAt(s, i, rows, slots, row, world, verify).ok
    ensures Mirrors(s, i, With(s, rows, row), StepAt(s, i, rows, slots, row, world, verify).slots, world)
  {
    if verify { CheckIffFree(s, i, rows, slots, row, world); }
    assert StepAt(s, i, rows, slots, row, world, verify).ok;
    hide StepAt, RowsOk, RowValid, Free, HasEntry, HasRow, With;
    var after, rows' := StepAt(s, i, rows, slots, row, world, verify).slots, With(s, rows, row);
    forall k | k in rows' ensures HasEntry(s, i, rows', after, world, k) { EntryAfter(s, i, rows, slots, row, world, verify, k); }
    forall e | e in after ensures HasRow(s, i, rows', world, e) { RowBehind(s, i, rows, slots, row, world, verify, e); }
  }

  /** Where it is taken no index could mirror the rows. */
  lemma {:induction false} TakenBreaks(s: Schema, i: nat, rows: map<seq<Byte>, Row>, row: Row, world: World, slots: map<seq<Byte>, seq<Byte>>)
    requires i < |s.indexes| && RowsOk(s, rows) && RowValid(s, row) && !Free(s, i, rows, row, world)
    ensures !Mirrors(s, i, With(s, rows, row), slots, world)
  {
    var key, rows' := RowKeyOf(s.table, row), With(s, rows, row);
    var k :| k in rows && k != key && SlotOf(s, i, rows[k], world) == SlotOf(s, i, row, world);
    WithOk(s, rows, row);
    assert rows'[k] == rows[k] && rows'[key] == row;
    hide With, RowsOk, RowValid, SlotOf, RowKeyOf;
    if Mirrors(s, i, rows', slots, world) { SlotsDistinct(s, i, rows', slots, world, key, k); }
  }

  // ----- A step that is not followed by the row

  /** An index written for a row that is then not stored is a mirror no more, unless the entry is
      the one the stored row has. */
  lemma {:induction false} StepTears(s: Schema, i: nat, rows: map<seq<Byte>, Row>, slots: map<seq<Byte>, seq<Byte>>, row: Row, world: World)
    requires i < |s.indexes| && RowsOk(s, rows) && RowValid(s, row) && Mirrors(s, i, rows, slots, world)
    requires StepAt(s, i, rows, slots, row, world, true).ok
    ensures var after := StepAt(s, i, rows, slots, row, world, true).slots; var kept := OldSlot(s, i, rows, row, world) == SlotOf(s, i, row, world);
            (after == slots <==> kept) && (Mirrors(s, i, rows, after, world) <==> kept)
  {
    CheckIffFree(s, i, rows, slots, row, world);
    var after, before, e := StepAt(s, i, rows, slots, row, world, true).slots, OldSlot(s, i, rows, row, world), SlotOf(s, i, row, world);
    var key := RowKeyOf(s.table, row);
    if key in rows { assert HasEntry(s, i, rows, slots, world, key); }
    if before == e {
      assert after == slots;
    } else if before.Some? {
      StepLeaves(s, i, rows, slots, row, world, true, before.value);
      hide StepAt, RowsOk, RowValid, RowKeyOf, EntryOf, Indexed, Free;
      assert !HasEntry(s, i, rows, after, world, key);
    } else {
      StepLeaves(s, i, rows, slots, row, world, true, e.value);
      hide StepAt, RowsOk, RowValid, RowKeyOf, EntryOf, Indexed;
      assert !HasRow(s, i, rows, world, e.value);
    }
  }

  /** A refused step has already taken the row's old entry away, if it had one. */
  lemma {:induction false} RefusalTears(s: Schema, i: nat, rows: map<seq<Byte>, Row>, slots: map<seq<Byte>, seq<Byte>>, row: Row, world: World)
    requires i < |s.indexes| && Mirrors(s, i, rows, slots, world) && !StepAt(s, i, rows, slots, row, world, true).ok
    ensures var after := StepAt(s, i, rows, slots, row, world, true).slots; var none := OldSlot(s, i, rows, row, world).None?;
            (after == slots <==> none) && (Mirrors(s, i, rows, after, world) <==> none)
  {
    var key, before := RowKeyOf(s.table, row), OldSlot(s, i, rows, row, world);
    var after := StepAt(s, i, rows, slots, row, world, true).slots;
    if before.Some? {
      assert HasEntry(s, i, rows, slots, world, key);
      assert before.value in slots && before.value !in after;
      hide StepAt, RowKeyOf, EntryOf, Indexed;
      assert !HasEntry(s, i, rows, after, world, key);
    }
  }
}
