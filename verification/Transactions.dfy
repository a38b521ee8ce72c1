/** Whole writes and whole runs of them: when the indexes stay in step with the rows, and when not. */
module Transactions {
  import opened Options
  import opened ByteStrings
  import opened Values
  import opened Exprs
  import opened Bounds
  import opened KeyMatch
  import opened KeyRanges
  import opened Plans
  import opened Records
  import ValueOrder
  import Implication
  import InRanges
  import Keys

  datatype Outcome = Outcome(slots: seq<map<seq<Byte>, seq<Byte>>>, ok: bool)

  /** The indexes up to the `n`th, stopping at the first that refuses. */
  function Written(s: Schema, p: Part, row: Row, world: World, verify: bool, n: nat): (r: Outcome)
    requires n <= |s.indexes| == |p.slots|
    ensures |r.slots| == |p.slots|
  {
    if n == 0 then Outcome(p.slots, true)
    else
      var prev := Written(s, p, row, world, verify, n - 1);
      if !prev.ok then prev
      else
        var step := StepAt(s, n - 1, p.rows, prev.slots[n - 1], row, world, verify);
        Outcome(prev.slots[n - 1 := step.slots], step.ok)
  }

  /** The first index that refuses, `n` if none of the first `n` does. */
  function FirstRefusal(s: Schema, p: Part, row: Row, world: World, verify: bool, n: nat): (f: nat)
    requires n <= |s.indexes| == |p.slots|
    ensures f <= n
  {
    if n == 0 then 0
    else
      var f := FirstRefusal(s, p, row, world, verify, n - 1);
      if f < n - 1 || !StepAt(s, n - 1, p.rows, p.slots[n - 1], row, world, verify).ok then f else n
  }

  lemma {:induction false} WrittenAt(s: Schema, p: Part, row: Row, world: World, verify: bool, n: nat, i: nat)
    requires n <= |s.indexes| == |p.slots| && i < |p.slots|
    ensures var r, f := Written(s, p, row, world, verify, n), FirstRefusal(s, p, row, world, verify, n);
            && (r.ok <==> f == n)
            && r.slots[i] == (if i < n && i <= f then StepAt(s, i, p.rows, p.slots[i], row, world, verify).slots else p.slots[i])
            && (i < f ==> StepAt(s, i, p.rows, p.slots[i], row, world, verify).ok)
            && (i == f < n ==> !StepAt(s, i, p.rows, p.slots[i], row, world, verify).ok)
  {
    hide StepAt;
    if n > 0 {
      WrittenAt(s, p, row, world, verify, n - 1, i);
      WrittenAt(s, p, row, world, verify, n - 1, n - 1);
    }
  }

  /** `write_row_with`: the indexes, then the row. */
  function Write(s: Schema, p: Part, row: Row, world: World, verify: bool): (Part, bool)
    requires |s.indexes| == |p.slots|
  {
    var r := Written(s, p, row, world, verify, |s.indexes|);
    (Part(if r.ok then With(s, p.rows, row) else p.rows, r.slots), r.ok)
  }

  /** `erase_row`. */
  function Erased(s: Schema, p: Part, row: Row, world: World, n: nat): (r: seq<map<seq<Byte>, seq<Byte>>>)
    requires n <= |s.indexes| == |p.slots|
    ensures |r| == |p.slots|
  {
    if n == 0 then p.slots
    else
      var prev, e := Erased(s, p, row, world, n - 1), SlotOf(s, n - 1, row, world);
      if e.Some? then prev[n - 1 := prev[n - 1] - {e.value}] else prev
  }

  function Erase(s: Schema, p: Part, row: Row, world: World): Part
    requires |s.indexes| == |p.slots|
  {
    Part(p.rows - {RowKeyOf(s.table, row)}, Erased(s, p, row, world, |s.indexes|))
  }

  // ----- The transaction

  /** What a transaction sees of one table: the store, and its own writes over it. */
  class Transaction {
    const s: Schema
    const world: World
    var part: Part

    ghost predicate Valid() reads this { |part.slots| == |s.indexes| }

    constructor (s: Schema, world: World, part: Part)
      requires |part.slots| == |s.indexes|
      ensures this.s == s && this.world == world && this.part == part && Valid()
    {
      this.s, this.world, this.part := s, world, part;
    }

    method WriteRow(row: Row, verify: bool) returns (ok: bool)
      requires Valid()
      modifies this`part
      ensures Valid() && (part, ok) == Write(s, old(part), row, world, verify)
      ensures part.rows == if ok then old(part.rows)[RowKeyOf(s.table, row) := row] else old(part.rows)
    {
      hide StepAt;
      for n := 0 to |s.indexes|
        invariant part.rows == old(part.rows) && |part.slots| == |s.indexes|
        invariant Written(s, old(part), row, world, verify, n) == Outcome(part.slots, true)
      {
        var step := StepAt(s, n, part.rows, part.slots[n], row, world, verify);
        part := part.(slots := part.slots[n := step.slots]);
        if !step.ok {
          StaysRefused(s, old(part), row, world, verify, n + 1, |s.indexes|);
          return false;
        }
      }
      part := part.(rows := With(s, part.rows, row));
      return true;
    }

    method EraseRow(row: Row)
      requires Valid()
      modifies this`part
      ensures Valid() && part == Erase(s, old(part), row, world)
      ensures part.rows == old(part.rows) - {RowKeyOf(s.table, row)}
    {
      hide SlotOf;
      for n := 0 to |s.indexes|
        invariant part == Part(old(part.rows), Erased(s, old(part), row, world, n))
      {
        var e := SlotOf(s, n, row, world);
        if e.Some? { part := part.(slots := part.slots[n := part.slots[n] - {e.value}]); }
      }
      part := part.(rows := part.rows - {RowKeyOf(s.table, row)});
    }
  }

  lemma {:induction false} StaysRefused(s: Schema, p: Part, row: Row, world: World, verify: bool, n: nat, m: nat)
    requires n <= m <= |s.indexes| == |p.slots| && !Written(s, p, row, world, verify, n).ok
    ensures Written(s, p, row, world, verify, m) == Written(s, p, row, world, verify, n)
  {
    hide StepAt;
    if n < m { StaysRefused(s, p, row, world, verify, n, m - 1); }
  }

  // ----- Writes

  /** No other row is in a slot that the new row would have. */
  ghost predicate AllFree(s: Schema, rows: map<seq<Byte>, Row>, row: Row, world: World) {
    forall i | 0 <= i < |s.indexes| :: Free(s, i, rows, row, world)
  }

  /** A checked write succeeds exactly when no index would have two rows in one slot, and then
      leaves every index in step with the rows. */
  lemma {:induction false} CheckedWrite(s: Schema, p: Part, row: Row, world: World)
    requires Consistent(s, p, world) && RowValid(s, row)
    ensures Write(s, p, row, world, true).1 <==> AllFree(s, p.rows, row, world)
    ensures Write(s, p, row, world, true).1 ==> Consistent(s, Write(s, p, row, world, true).0, world)
    ensures Write(s, p, row, world, true).0.rows
         == if AllFree(s, p.rows, row, world) then p.rows[RowKeyOf(s.table, row) := row] else p.rows
  {
    var n, f := |s.indexes|, FirstRefusal(s, p, row, world, true, |s.indexes|);
    WithOk(s, p.rows, row);
    hide RowsOk, RowValid, StepAt, Mirrors, Free, With;
    forall i: nat | i < n
      ensures StepAt(s, i, p.rows, p.slots[i], row, world, true).ok <==> Free(s, i, p.rows, row, world)
      ensures i < f ==> StepAt(s, i, p.rows, p.slots[i], row, world, true).ok
      ensures i == f ==> !StepAt(s, i, p.rows, p.slots[i], row, world, true).ok
      ensures Written(s, p, row, world, true, n).ok <==> f == n
      ensures i <= f ==> Written(s, p, row, world, true, n).slots[i] == StepAt(s, i, p.rows, p.slots[i], row, world, true).slots
    {
      CheckIffFree(s, i, p.rows, p.slots[i], row, world);
      WrittenAt(s, p, row, world, true, n, i);
    }
    hide Written, FirstRefusal;
    if n == 0 { NoneRefused(s, p, row, world, true); }
    if f < n {
      assert !StepAt(s, f, p.rows, p.slots[f], row, world, true).ok;
    } else {
      forall i: nat | i < n ensures Mirrors(s, i, With(s, p.rows, row), Written(s, p, row, world, true, n).slots[i], world) {
        StepKeeps(s, i, p.rows, p.slots[i], row, world, true);
      }
    }
  }

  lemma {:induction false} NoneRefused(s: Schema, p: Part, row: Row, world: World, verify: bool)
    requires |s.indexes| == |p.slots| == 0
    ensures Written(s, p, row, world, verify, 0).ok && FirstRefusal(s, p, row, world, verify, 0) == 0
  {
  }

  /** The entry the row had is the entry it would have. */
  ghost predicate Unmoved(s: Schema, p: Part, row: Row, world: World, i: nat)
    requires i < |s.indexes|
  {
    OldSlot(s, i, p.rows, row, world) == SlotOf(s, i, row, world)
  }

  /** Nothing to write before the refusal, and nothing to take away where it comes. */
  ghost predicate NothingBefore(s: Schema, p: Part, row: Row, world: World, f: nat)
    requires f < |s.indexes|
  {
    (forall i | 0 <= i < f :: Unmoved(s, p, row, world, i)) && OldSlot(s, f, p.rows, row, world).None?
  }

  /** A refused write leaves the transaction as it was exactly when there was nothing to write
      before the refusal and no entry to take away where it came; otherwise what it leaves is out
      of step, and a caller that goes on and commits stores it. */
  lemma {:induction false} RefusedWrite(s: Schema, p: Part, row: Row, world: World)
    requires Consistent(s, p, world) && RowValid(s, row) && !Write(s, p, row, world, true).1
    ensures var f := FirstRefusal(s, p, row, world, true, |s.indexes|); var p' := Write(s, p, row, world, true).0;
            && f < |s.indexes|
            && (p' == p <==> NothingBefore(s, p, row, world, f))
            && (Consistent(s, p', world) <==> NothingBefore(s, p, row, world, f))
  {
    var n, f := |s.indexes|, FirstRefusal(s, p, row, world, true, |s.indexes|);
    if n == 0 { NoneRefused(s, p, row, world, true); }
    WrittenAt(s, p, row, world, true, n, 0);
    var after := Written(s, p, row, world, true, n).slots;
    hide RowsOk, RowValid, StepAt, Mirrors, With, SlotOf, OldSlot;
    forall i: nat | i < n
      ensures i < f ==> (after[i] == p.slots[i] <==> Unmoved(s, p, row, world, i))
      ensures i < f ==> (Mirrors(s, i, p.rows, after[i], world) <==> Unmoved(s, p, row, world, i))
      ensures i == f ==> (after[i] == p.slots[i] <==> OldSlot(s, f, p.rows, row, world).None?)
      ensures i == f ==> (Mirrors(s, i, p.rows, after[i], world) <==> OldSlot(s, f, p.rows, row, world).None?)
      ensures i > f ==> after[i] == p.slots[i]
    {
      WrittenAt(s, p, row, world, true, n, i);
      if i < f { StepTears(s, i, p.rows, p.slots[i], row, world); }
      if i == f { RefusalTears(s, i, p.rows, p.slots[i], row, world); }
    }
    hide Written, FirstRefusal, Unmoved;
    var p' := Part(p.rows, after);
    assert f < n && Write(s, p, row, world, true).0 == p';
    if NothingBefore(s, p, row, world, f) {
      assert forall i: nat | i < n :: after[i] == p.slots[i];
      assert p' == p;
    } else if OldSlot(s, f, p.rows, row, world).Some? {
      assert after[f] != p.slots[f] && !Mirrors(s, f, p'.rows, p'.slots[f], world);
    } else {
      var i: nat :| i < f && !Unmoved(s, p, row, world, i);
      assert after[i] != p.slots[i] && !Mirrors(s, i, p'.rows, p'.slots[i], world);
    }
  }

  /** A write without the check keeps the indexes in step exactly when the check would have passed. */
  lemma {:induction false} UncheckedWrite(s: Schema, p: Part, row: Row, world: World)
    requires Consistent(s, p, world) && RowValid(s, row)
    ensures Write(s, p, row, world, false).1
    ensures Write(s, p, row, world, false).0.rows == p.rows[RowKeyOf(s.table, row) := row]
    ensures Consistent(s, Write(s, p, row, world, false).0, world) <==> AllFree(s, p.rows, row, world)
  {
    var n := |s.indexes|;
    NeverRefused(s, p, row, world, n);
    WithOk(s, p.rows, row);
    hide RowsOk, RowValid, Mirrors, Free, With;
    forall i: nat | i < n
      ensures Mirrors(s, i, With(s, p.rows, row), Written(s, p, row, world, false, n).slots[i], world) <==> Free(s, i, p.rows, row, world)
    {
      WrittenAt(s, p, row, world, false, n, i);
      hide StepAt;
      if Free(s, i, p.rows, row, world) {
        StepKeeps(s, i, p.rows, p.slots[i], row, world, false);
      } else {
        TakenBreaks(s, i, p.rows, row, world, Written(s, p, row, world, false, n).slots[i]);
      }
    }
    hide Written;
  }

  lemma {:induction false} NeverRefused(s: Schema, p: Part, row: Row, world: World, n: nat)
    requires n <= |s.indexes| == |p.slots|
    ensures Written(s, p, row, world, false, n).ok && FirstRefusal(s, p, row, world, false, n) == n
  {
    if n > 0 { NeverRefused(s, p, row, world, n - 1); }
  }

  // ----- What the check refuses

  /** Both rows are in a unique index, with equal values, none of them null, of one tenant. */
  ghost predicate Rivals(s: Schema, i: nat, row: Row, other: Row, world: World)
    requires i < |s.indexes|
  {
    var x, u := s.indexes[i], ValuesFrom(row, s.indexes[i].columns, 0);
    && Indexed(x, row, world) && Indexed(x, other, world) && x.layout.unique
    && (forall k | 0 <= k < |u| :: u[k] != Null)
    && Tuples.CompareTuples(u, ValuesFrom(other, x.columns, 0), x.layout.directions) == Equal
    && Tuples.CompareTuples(Keys.TenantOf(s.table.layout, PrimaryValues(s.table, row)), Keys.TenantOf(s.table.layout, PrimaryValues(s.table, other)), []) == Equal
  }

  lemma {:induction false} KeysApart(s: Schema, row: Row, other: Row)
    requires RowValid(s, row) && RowValid(s, other) && RowKeyOf(s.table, row) != RowKeyOf(s.table, other)
    ensures Tuples.CompareTuples(PrimaryValues(s.table, row), PrimaryValues(s.table, other), []) != Equal
  {
    var p, q := PrimaryValues(s.table, row), PrimaryValues(s.table, other);
    Keys.StorableFits(p);
    Keys.StorableFits(q);
    hide Keys.RowKey, PrimaryValues, Tuples.CompareTuples;
    Keys.RowKeyOrder(s.table.layout, p, q);
    LexAntisymmetric(Keys.RowKey(s.table.layout, p), Keys.RowKey(s.table.layout, q));
  }

  lemma {:induction false} EnforcesIff(i: Keys.Index, vs: seq<Value>)
    ensures Keys.Enforces(i, vs) <==> i.unique && forall k | 0 <= k < |vs| :: vs[k] != Null
  {
  }

  /** Two different rows share a slot just if they are rivals. */
  lemma {:induction false} SharedIffRivals(s: Schema, i: nat, row: Row, other: Row, world: World)
    requires i < |s.indexes| && RowValid(s, row) && RowValid(s, other) && RowKeyOf(s.table, row) != RowKeyOf(s.table, other)
    ensures SlotOf(s, i, row, world).Some? && SlotOf(s, i, row, world) == SlotOf(s, i, other, world) <==> Rivals(s, i, row, other, world)
  {
    var x := s.indexes[i];
    var u, v := ValuesFrom(row, x.columns, 0), ValuesFrom(other, x.columns, 0);
    assert Keys.IsIndexed(x.layout, u) && Keys.IsIndexed(x.layout, v);
    KeysApart(s, row, other);
    EnforcesIff(x.layout, u);
    hide Keys.IndexEntry, Keys.Enforces, Keys.TenantOf, Tuples.CompareTuples, PrimaryValues, ValuesFrom, Indexed, Keys.IsIndexed, Keys.IsKeyOf, RowKeyOf;
    Keys.IndexKeysCollideIff(s.table.layout, x.layout, u, PrimaryValues(s.table, row), v, PrimaryValues(s.table, other));
  }

  /** A checked write is refused just if some other stored row is its rival in some index. */
  lemma {:induction false} RefusedIff(s: Schema, p: Part, row: Row, world: World)
    requires Consistent(s, p, world) && RowValid(s, row)
    ensures !Write(s, p, row, world, true).1 <==>
            exists i: nat, k :: i < |s.indexes| && k in p.rows && k != RowKeyOf(s.table, row) && Rivals(s, i, row, p.rows[k], world)
  {
    assert RowsOk(s, p.rows);
    CheckedWrite(s, p, row, world);
    hide Write, Consistent, Rivals, SlotOf, RowValid, RowKeyOf;
    if !AllFree(s, p.rows, row, world) {
      var i: nat :| i < |s.indexes| && !Free(s, i, p.rows, row, world);
      var k :| k in p.rows && k != RowKeyOf(s.table, row) && SlotOf(s, i, p.rows[k], world) == SlotOf(s, i, row, world);
      SharedIffRivals(s, i, row, p.rows[k], world);
    }
    if i: nat, k :| i < |s.indexes| && k in p.rows && k != RowKeyOf(s.table, row) && Rivals(s, i, row, p.rows[k], world) {
      SharedIffRivals(s, i, row, p.rows[k], world);
      assert !Free(s, i, p.rows, row, world);
    }
  }

  // ----- Erasing

  lemma {:induction false} ErasedAt(s: Schema, p: Part, row: Row, world: World, n: nat, i: nat)
    requires n <= |s.indexes| == |p.slots| && i < |p.slots|
    ensures var e := SlotOf(s, i, row, world);
            Erased(s, p, row, world, n)[i] == if i < n && e.Some? then p.slots[i] - {e.value} else p.slots[i]
  {
    hide SlotOf;
    if n > 0 { ErasedAt(s, p, row, world, n - 1, i); }
  }

  lemma {:induction false} EntryNotErased(s: Schema, i: nat, rows: map<seq<Byte>, Row>, slots: map<seq<Byte>, seq<Byte>>, row: Row, world: World, k: seq<Byte>)
    requires i < |s.indexes| && RowsOk(s, rows) && Mirrors(s, i, rows, slots, world)
    requires var key := RowKeyOf(s.table, row); key in rows && rows[key] == row && k in rows && k != key
    ensures var e := SlotOf(s, i, row, world);
            HasEntry(s, i, rows - {RowKeyOf(s.table, row)}, if e.Some? then slots - {e.value} else slots, world, k)
  {
    assert HasEntry(s, i, rows, slots, world, k);
    SlotsDistinct(s, i, rows, slots, world, RowKeyOf(s.table, row), k);
    hide SlotOf, RowKeyOf, EntryOf, RowsOk, Mirrors;
  }

  lemma {:induction false} RowNotErased(s: Schema, i: nat, rows: map<seq<Byte>, Row>, row: Row, world: World, x: seq<Byte>)
    requires i < |s.indexes| && HasRow(s, i, rows, world, x) && SlotOf(s, i, row, world) != Some(x)
    requires var key := RowKeyOf(s.table, row); key in rows && rows[key] == row
    ensures HasRow(s, i, rows - {RowKeyOf(s.table, row)}, world, x)
  {
    hide SlotOf, RowKeyOf;
    var k :| k in rows && SlotOf(s, i, rows[k], world) == Some(x);
    assert k in rows - {RowKeyOf(s.table, row)};
  }

  lemma {:induction false} EraseKeepsIndex(s: Schema, i: nat, rows: map<seq<Byte>, Row>, slots: map<seq<Byte>, seq<Byte>>, row: Row, world: World)
    requires i < |s.indexes| && RowsOk(s, rows) && Mirrors(s, i, rows, slots, world)
    requires var key := RowKeyOf(s.table, row); key in rows && rows[key] == row
    ensures var e := SlotOf(s, i, row, world);
            Mirrors(s, i, rows - {RowKeyOf(s.table, row)}, if e.Some? then slots - {e.value} else slots, world)
  {
    var key, e := RowKeyOf(s.table, row), SlotOf(s, i, row, world);
    var rows', slots' := rows - {key}, if e.Some? then slots - {e.value} else slots;
    hide SlotOf, RowKeyOf, RowsOk, HasEntry, HasRow;
    forall k | k in rows' ensures HasEntry(s, i, rows', slots', world, k) { EntryNotErased(s, i, rows, slots, row, world, k); }
    forall x | x in slots' ensures HasRow(s, i, rows', world, x) { RowNotErased(s, i, rows, row, world, x); }
  }

  /** Erasing a stored row takes its entries and nobody else's. */
  lemma {:induction false} EraseKeeps(s: Schema, p: Part, row: Row, world: World)
    requires Consistent(s, p, world)
    requires var key := RowKeyOf(s.table, row); key in p.rows && p.rows[key] == row
    ensures Consistent(s, Erase(s, p, row, world), world)
    ensures var rows := Erase(s, p, row, world).rows;
            RowKeyOf(s.table, row) !in rows && forall k | k != RowKeyOf(s.table, row) :: (k in rows <==> k in p.rows) && (k in rows ==> rows[k] == p.rows[k])
  {
    var p' := Erase(s, p, row, world);
    assert RowsOk(s, p'.rows) by { hide RowKeyOf, RowValid; }
    hide RowsOk, SlotOf, RowKeyOf, Mirrors;
    forall i: nat | i < |s.indexes| ensures Mirrors(s, i, p'.rows, p'.slots[i], world) {
      ErasedAt(s, p, row, world, |s.indexes|, i);
      EraseKeepsIndex(s, i, p.rows, p.slots[i], row, world);
    }
  }

  // ----- Runs

  const NO_ROWS: map<seq<Byte>, Row> := map[]

  function Empty(n: nat): (r: seq<map<seq<Byte>, seq<Byte>>>)
    ensures |r| == n && forall i | 0 <= i < n :: r[i] == map[]
  {
    if n == 0 then [] else Empty(n - 1) + [map[]]
  }

  /** A statement: a row written over whatever has its key, or a row erased by key. */
  datatype Statement = Put(row: Row) | Remove(key: seq<Byte>)

  /** One transaction each, rolled back when it is refused. */
  function Committed(s: Schema, p: Part, a: Statement, world: World): Part
    requires |s.indexes| == |p.slots|
  {
    match a
    case Put(row) => var r := Write(s, p, row, world, true); if r.1 then r.0 else p
    case Remove(key) => if key in p.rows then Erase(s, p, p.rows[key], world) else p
  }

  function Run(s: Schema, statements: seq<Statement>, n: nat, world: World): (p: Part)
    requires n <= |statements|
    ensures |p.slots| == |s.indexes|
  {
    if n == 0 then Part(NO_ROWS, Empty(|s.indexes|))
    else Committed(s, Run(s, statements, n - 1, world), statements[n - 1], world)
  }

  /** After any run of statements every index is in step with the rows. */
  lemma {:induction false} RunIsConsistent(s: Schema, statements: seq<Statement>, n: nat, world: World)
    requires n <= |statements| && forall k | 0 <= k < |statements| && statements[k].Put? :: RowValid(s, statements[k].row)
    ensures Consistent(s, Run(s, statements, n, world), world)
  {
    if n == 0 {
      EmptyIsConsistent(s, world);
    } else {
      RunIsConsistent(s, statements, n - 1, world);
      var p := Run(s, statements, n - 1, world);
      assert Consistent(s, p, world);
      match statements[n - 1]
      case Put(row) => CheckedWrite(s, p, row, world);
      case Remove(key) =>
        assert RowsOk(s, p.rows);
        if key in p.rows { EraseKeeps(s, p, p.rows[key], world); }
      hide Consistent, Write, Erase, RowValid;
    }
  }

  // ----- What a run leaves

  /** The table as one would have it with no indexes: the rows, and the rule that no index may have
      two of them in one slot. */
  ghost function Rows(s: Schema, statements: seq<Statement>, n: nat, world: World): map<seq<Byte>, Row>
    requires n <= |statements|
  {
    if n == 0 then NO_ROWS
    else
      var rows := Rows(s, statements, n - 1, world);
      match statements[n - 1]
      case Put(row) => if AllFree(s, rows, row, world) then rows[RowKeyOf(s.table, row) := row] else rows
      case Remove(key) => rows - {key}
  }

  ghost predicate AllValid(s: Schema, statements: seq<Statement>) {
    forall k | 0 <= k < |statements| && statements[k].Put? :: RowValid(s, statements[k].row)
  }

  lemma {:induction false} CommittedRows(s: Schema, p: Part, a: Statement, world: World)
    requires Consistent(s, p, world) && (a.Put? ==> RowValid(s, a.row))
    ensures Committed(s, p, a, world).rows
         == match a
            case Put(row) => if AllFree(s, p.rows, row, world) then p.rows[RowKeyOf(s.table, row) := row] else p.rows
            case Remove(key) => p.rows - {key}
  {
    assert RowsOk(s, p.rows);
    match a
    case Put(row) =>
      CheckedWrite(s, p, row, world);
      hide Consistent, Write, RowValid, AllFree, RowKeyOf;
    case Remove(key) =>
      if key in p.rows {
        EraseKeeps(s, p, p.rows[key], world);
      } else {
        assert p.rows - {key} == p.rows;
      }
      hide Consistent, RowValid, Erased, RowKeyOf;
  }

  /** The rows a run leaves are those: the indexes it keeps and consults show in none of them. */
  lemma {:induction false} RunRows(s: Schema, statements: seq<Statement>, n: nat, world: World)
    requires n <= |statements| && AllValid(s, statements)
    ensures Run(s, statements, n, world).rows == Rows(s, statements, n, world)
  {
    if n > 0 {
      hide Consistent, Committed, AllFree, RowValid, RowKeyOf;
      RunRows(s, statements, n - 1, world);
      RunIsConsistent(s, statements, n - 1, world);
      var p := Run(s, statements, n - 1, world);
      CommittedRows(s, p, statements[n - 1], world);
    }
  }

  /** The statement puts the row at the key and is accepted. */
  ghost predicate PutsAt(s: Schema, statements: seq<Statement>, m: nat, world: World, key: seq<Byte>, row: Row)
    requires m < |statements|
  {
    statements[m] == Put(row) && RowKeyOf(s.table, row) == key && AllFree(s, Rows(s, statements, m, world), row, world)
  }

  /** The statement removes the key or puts another row there. */
  ghost predicate Touches(s: Schema, statements: seq<Statement>, m: nat, world: World, key: seq<Byte>)
    requires m < |statements|
  {
    statements[m] == Remove(key) || exists row :: PutsAt(s, statements, m, world, key, row)
  }

  /** At the key is what statement `m` put there, and nothing has touched it since. */
  ghost predicate LastPut(s: Schema, statements: seq<Statement>, n: nat, world: World, key: seq<Byte>, row: Row, m: nat)
    requires n <= |statements|
  {
    m < n && PutsAt(s, statements, m, world, key, row) && forall j | m < j < n :: !Touches(s, statements, j, world, key)
  }

  lemma {:induction false} RowsStep(s: Schema, statements: seq<Statement>, n: nat, world: World, key: seq<Byte>, row: Row)
    requires 0 < n <= |statements|
    ensures var before, after := Rows(s, statements, n - 1, world), Rows(s, statements, n, world);
            key in after && after[key] == row <==>
            PutsAt(s, statements, n - 1, world, key, row)
            || (!Touches(s, statements, n - 1, world, key) && key in before && before[key] == row)
  {
    var a := statements[n - 1];
    hide AllFree, RowKeyOf;
    if a.Put? && RowKeyOf(s.table, a.row) == key && AllFree(s, Rows(s, statements, n - 1, world), a.row, world) {
      assert PutsAt(s, statements, n - 1, world, key, a.row);
    }
  }

  /** A row is stored after a run just if some accepted put put it there and no later statement has
      taken it away or put another in its place. */
  lemma {:induction false} StoredIff(s: Schema, statements: seq<Statement>, n: nat, world: World, key: seq<Byte>, row: Row)
    requires n <= |statements| && AllValid(s, statements)
    ensures var rows := Run(s, statements, n, world).rows;
            key in rows && rows[key] == row <==> exists m: nat :: LastPut(s, statements, n, world, key, row, m)
  {
    RunRows(s, statements, n, world);
    hide Run, AllValid;
    RowsIff(s, statements, n, world, key, row);
  }

  lemma {:induction false} RowsIff(s: Schema, statements: seq<Statement>, n: nat, world: World, key: seq<Byte>, row: Row)
    requires n <= |statements|
    ensures var rows := Rows(s, statements, n, world);
            key in rows && rows[key] == row <==> exists m: nat :: LastPut(s, statements, n, world, key, row, m)
  {
    if n > 0 {
      var o: nat := n - 1;
      RowsIff(s, statements, o, world, key, row);
      RowsStep(s, statements, n, world, key, row);
      hide Rows, PutsAt, Touches;
      if PutsAt(s, statements, o, world, key, row) {
        assert LastPut(s, statements, n, world, key, row, o);
      } else {
        if !Touches(s, statements, o, world, key) {
          if m: nat :| LastPut(s, statements, o, world, key, row, m) {
            assert LastPut(s, statements, n, world, key, row, m);
          }
        }
        if m: nat :| LastPut(s, statements, n, world, key, row, m) {
          assert LastPut(s, statements, o, world, key, row, m);
        }
      }
    }
  }

  lemma {:induction false} EmptyIsConsistent(s: Schema, world: World)
    ensures Consistent(s, Part(NO_ROWS, Empty(|s.indexes|)), world)
  {
  }

  /** Rows that share the values of a unique index, none of them null, and the tenant, are one row. */
  lemma {:induction false} UniqueHolds(s: Schema, p: Part, i: nat, world: World, j: seq<Byte>, k: seq<Byte>)
    requires Consistent(s, p, world) && i < |s.indexes| && j in p.rows && k in p.rows
    requires Indexed(s.indexes[i], p.rows[j], world) && Indexed(s.indexes[i], p.rows[k], world) && Enforced(s, i, p.rows[j])
    requires Tuples.CompareTuples(ValuesFrom(p.rows[j], s.indexes[i].columns, 0), ValuesFrom(p.rows[k], s.indexes[i].columns, 0), s.indexes[i].layout.directions) == Equal
    requires Tuples.CompareTuples(Keys.TenantOf(s.table.layout, PrimaryValues(s.table, p.rows[j])), Keys.TenantOf(s.table.layout, PrimaryValues(s.table, p.rows[k])), []) == Equal
    ensures j == k
  {
    var a, b, x := p.rows[j], p.rows[k], s.indexes[i];
    assert RowValid(s, a) && RowValid(s, b) && Mirrors(s, i, p.rows, p.slots[i], world);
    Keys.IndexKeysCollideIff(s.table.layout, x.layout, ValuesFrom(a, x.columns, 0), PrimaryValues(s.table, a), ValuesFrom(b, x.columns, 0), PrimaryValues(s.table, b));
    assert SlotOf(s, i, a, world) == SlotOf(s, i, b, world);
    hide Mirrors, RowValid, SlotOf, RowsOk, Indexed, Enforced;
    if j != k { SlotsDistinct(s, i, p.rows, p.slots[i], world, j, k); }
  }

  // ----- Reading back

  /** The entry at `e`, decoded, names the row at `k`. */
  ghost predicate Leads(s: Schema, p: Part, i: nat, e: seq<Byte>, k: seq<Byte>)
    requires |p.slots| == |s.indexes| && i < |s.indexes|
  {
    e in p.slots[i]
    && var r := Keys.DecodeIndexEntry(s.table.layout, s.indexes[i].layout, e, p.slots[i][e]);
       r.Found? && Keys.RowKey(s.table.layout, r.value.1) == k
  }

  lemma {:induction false} SameFlipped(a: seq<Value>, b: seq<Value>)
    requires ValueOrder.SameValues(a, b)
    ensures ValueOrder.SameValues(b, a)
  {
    forall k | 0 <= k < |a| ensures ValueOrder.Same(b[k], a[k]) {
      assert ValueOrder.Same(a[k], b[k]);
      ValueOrder.CompareFlip(a[k], b[k]);
    }
    hide ValueOrder.Same;
  }

  /** What is written for a row leads back to it, wherever its primary key was put. */
  lemma {:induction false} EntryLeadsBack(s: Schema, i: nat, row: Row)
    requires i < |s.indexes| && RowValid(s, row)
    ensures var e := EntryOf(s, i, row);
            var r := Keys.DecodeIndexEntry(s.table.layout, s.indexes[i].layout, e.key, e.value);
            r.Found? && Keys.RowKey(s.table.layout, r.value.1) == RowKeyOf(s.table, row)
  {
    var t, x := s.table.layout, s.indexes[i];
    var vs, pk := ValuesFrom(row, x.columns, 0), PrimaryValues(s.table, row);
    assert Keys.IsIndexed(x.layout, vs) && Keys.IsKeyOf(t, pk);
    Keys.StorableFits(pk);
    hide Keys.DecodeIndexEntry, Keys.IndexEntry, Keys.IsIndexed, ValuesFrom, PrimaryValues, RowValid, Keys.AllStorable, ValueOrder.SameValues;
    Keys.IndexEntryRoundTrip(t, x.layout, vs, pk);
    var e := EntryOf(s, i, row);
    var pk' := Keys.DecodeIndexEntry(t, x.layout, e.key, e.value).value.1;
    SameFlipped(pk, pk');
    SameKeyFits(pk', pk);
    SameKeysSameBytes(pk', pk);
  }

  /** Every entry leads to one stored row, and to the one it was written for. */
  lemma {:induction false} EntryLeadsToOne(s: Schema, p: Part, i: nat, world: World, e: seq<Byte>) returns (k: seq<Byte>)
    requires Consistent(s, p, world) && i < |s.indexes| && e in p.slots[i]
    ensures k in p.rows && SlotOf(s, i, p.rows[k], world) == Some(e)
    ensures forall j :: Leads(s, p, i, e, j) <==> j == k
  {
    assert Mirrors(s, i, p.rows, p.slots[i], world) && RowsOk(s, p.rows);
    assert HasRow(s, i, p.rows, world, e);
    k :| k in p.rows && SlotOf(s, i, p.rows[k], world) == Some(e);
    assert HasEntry(s, i, p.rows, p.slots[i], world, k);
    EntryLeadsBack(s, i, p.rows[k]);
    hide Mirrors, RowValid, EntryOf, RowKeyOf, Keys.DecodeIndexEntry, Indexed;
  }

  /** The scan of an index comes to the row at `k`: by an entry in the range, decoded and followed. */
  ghost predicate Met(s: Schema, p: Part, i: nat, range: KeyRange, k: seq<Byte>)
    requires |p.slots| == |s.indexes| && i < |s.indexes|
  {
    exists e :: e in p.slots[i] && Contains(range, e) && Leads(s, p, i, e, k)
  }

  lemma {:induction false} MetBySlot(s: Schema, p: Part, i: nat, range: KeyRange, world: World, k: seq<Byte>)
    requires Consistent(s, p, world) && i < |s.indexes| && k in p.rows && Met(s, p, i, range, k)
    ensures SlotOf(s, i, p.rows[k], world).Some? && Contains(range, SlotOf(s, i, p.rows[k], world).value)
  {
    assert |p.slots| == |s.indexes|;
    hide Contains, Leads, Consistent, SlotOf;
    var e :| e in p.slots[i] && Contains(range, e) && Leads(s, p, i, e, k);
    var j := EntryLeadsToOne(s, p, i, world, e);
    assert j == k;
  }

  lemma {:induction false} SlotMeets(s: Schema, p: Part, i: nat, range: KeyRange, world: World, k: seq<Byte>)
    requires Consistent(s, p, world) && i < |s.indexes| && k in p.rows
    requires SlotOf(s, i, p.rows[k], world).Some? && Contains(range, SlotOf(s, i, p.rows[k], world).value)
    ensures Met(s, p, i, range, k)
  {
    var e := SlotOf(s, i, p.rows[k], world).value;
    assert e in p.slots[i] by { assert Mirrors(s, i, p.rows, p.slots[i], world) && HasEntry(s, i, p.rows, p.slots[i], world, k); }
    hide Contains, Leads, Consistent, SlotOf;
    var j := EntryLeadsToOne(s, p, i, world, e);
    if j != k { EntriesApart(s, p, i, world, j, k); }
  }

  /** Walking an index comes to just the rows that the access reaches. */
  lemma {:induction false} MetIffReached(s: Schema, p: Part, i: nat, range: KeyRange, world: World, k: seq<Byte>)
    requires Consistent(s, p, world) && i < |s.indexes| && k in p.rows
    ensures Met(s, p, i, range, k) <==> Reaches(s.table, IndexScan(s.indexes[i], range), p.rows[k], world)
  {
    assert |p.slots| == |s.indexes|;
    hide Contains, Indexed, Met, Consistent, Keys.IndexEntry, ValuesFrom, PrimaryValues;
    if Met(s, p, i, range, k) {
      MetBySlot(s, p, i, range, world, k);
    } else if Reaches(s.table, IndexScan(s.indexes[i], range), p.rows[k], world) {
      SlotMeets(s, p, i, range, world, k);
    }
  }

  lemma {:induction false} EntriesApart(s: Schema, p: Part, i: nat, world: World, j: seq<Byte>, k: seq<Byte>)
    requires Consistent(s, p, world) && i < |s.indexes| && j in p.rows && k in p.rows && j != k
    ensures SlotOf(s, i, p.rows[j], world).None? || SlotOf(s, i, p.rows[j], world) != SlotOf(s, i, p.rows[k], world)
  {
    SlotsDistinct(s, i, p.rows, p.slots[i], world, j, k);
  }

  /** What a plan's access reads of the store. */
  ghost predicate Returned(s: Schema, p: Part, a: Access, k: seq<Byte>)
    requires |p.slots| == |s.indexes|
  {
    match a
    case Nothing => false
    case PointGet(key) => Keys.RowKey(s.table.layout, key) == k
    case PointGets(keys) => exists q | 0 <= q < |keys| :: Keys.RowKey(s.table.layout, keys[q]) == k
    case TableScan(range) => Contains(range, k)
    case IndexScan(x, range) => exists i | 0 <= i < |s.indexes| :: s.indexes[i] == x && Met(s, p, i, range, k)
    case IndexScans(x, picks) =>
      exists i, q | 0 <= i < |s.indexes| && 0 <= q < |picks| :: s.indexes[i] == x && Met(s, p, i, picks[q].range, k)
  }

  ghost predicate KnownIndex(s: Schema, a: Access) { a.IndexScan? || a.IndexScans? ==> a.index in s.indexes }

  lemma {:induction false} ScansReturned(s: Schema, p: Part, a: Access, world: World, k: seq<Byte>)
    requires Consistent(s, p, world) && k in p.rows && KnownIndex(s, a) && a.IndexScans?
    ensures Returned(s, p, a, k) <==> Reaches(s.table, a, p.rows[k], world)
  {
    var row := p.rows[k];
    hide Met, Contains, Consistent, EntryKeyOf, Indexed;
    forall i: nat, q: nat | i < |s.indexes| && q < |a.picks| && s.indexes[i] == a.index
      ensures Met(s, p, i, a.picks[q].range, k) <==> Indexed(a.index, row, world) && Contains(a.picks[q].range, EntryKeyOf(s.table, a.index, row))
    {
      MetIffReached(s, p, i, a.picks[q].range, world, k);
    }
    var i: nat :| i < |s.indexes| && s.indexes[i] == a.index;
    if Reaches(s.table, a, row, world) {
      var q: nat :| q < |a.picks| && Contains(a.picks[q].range, EntryKeyOf(s.table, a.index, row));
      assert Met(s, p, i, a.picks[q].range, k);
    }
  }

  lemma {:induction false} ReturnedIffReached(s: Schema, p: Part, a: Access, world: World, k: seq<Byte>)
    requires Consistent(s, p, world) && k in p.rows && KnownIndex(s, a)
    ensures Returned(s, p, a, k) <==> Reaches(s.table, a, p.rows[k], world)
  {
    assert RowKeyOf(s.table, p.rows[k]) == k by { assert RowsOk(s, p.rows); hide RowValid; }
    hide Met, Contains, Consistent, EntryKeyOf, Indexed, Keys.RowKey, RowKeyOf;
    match a
    case IndexScans(_, _) => ScansReturned(s, p, a, world, k);
    case IndexScan(x, range) =>
      forall i: nat | i < |s.indexes| && s.indexes[i] == x
        ensures Met(s, p, i, range, k) <==> Reaches(s.table, a, p.rows[k], world)
      {
        MetIffReached(s, p, i, range, world, k);
      }
      var i: nat :| i < |s.indexes| && s.indexes[i] == x;
      assert s.indexes[i] == x;
    case _ =>
  }

  lemma {:induction false} PlannedIsKnown(s: Schema, e: Expr, a: Access)
    requires s.table.primaryKey != [] && Planned(s.table, s.indexes, e, a)
    ensures KnownIndex(s, a)
  {
    hide ConstraintsOf, PointKeys, Unsatisfiable, InRanges.Split, Matched, Implication.Implies, IndexColumns, KeyRanges.IsEmpty;
  }

  ghost predicate ValidSchema(s: Schema) {
    Plans.ValidTable(s.table) && forall i | 0 <= i < |s.indexes| :: Plans.ValidIndex(s.indexes[i])
  }

  /** No range comparison with a computed vector or array is one that loses a row. */
  ghost predicate ComputedHarmless(s: Schema, e: Expr) {
    forall i | 0 <= i < |s.indexes| && s.indexes[i].computed :: ComputedKeeps(s.indexes[i], ConstraintsOf(e))
  }

  /** The whole path: whatever access a query is planned with, what it reads of the store that a run
      of writes left, followed to the rows and filtered by the residual, is exactly the stored rows
      the predicate admits. */
  lemma {:induction false} QueryAnswers(s: Schema, p: Part, e: Expr, a: Access, world: World, k: seq<Byte>)
    requires ValidSchema(s) && Consistent(s, p, world) && k in p.rows && ComputedHarmless(s, e)
    requires Planned(s.table, s.indexes, e, a)
    ensures Returned(s, p, a, k) && Admits(Prepared(e), p.rows[k], world) <==> Admits(e, p.rows[k], world)
  {
    PlannedIsKnown(s, e, a);
    assert RowValid(s, p.rows[k]);
    SchemaKeeps(s.table, s.indexes, ConstraintsOf(e), p.rows[k]);
    hide Returned, Reaches, Consistent, Admits, Prepared, RowKeeps, ConstraintsOf, Planned, KnownIndex, AllKeyable;
    ReturnedIffReached(s, p, a, world, k);
    PlanExact(s.table, s.indexes, e, a, p.rows[k], world);
  }

  /** From the first statement to the answer: a query after any run returns just the rows that the
      table without indexes holds and the predicate admits. */
  lemma {:induction false} RunAnswers(s: Schema, statements: seq<Statement>, e: Expr, a: Access, world: World, k: seq<Byte>)
    requires ValidSchema(s) && AllValid(s, statements) && ComputedHarmless(s, e) && Planned(s.table, s.indexes, e, a)
    ensures var p, rows := Run(s, statements, |statements|, world), Rows(s, statements, |statements|, world);
            k in p.rows && Returned(s, p, a, k) && Admits(Prepared(e), p.rows[k], world) <==> k in rows && Admits(e, rows[k], world)
  {
    RunIsConsistent(s, statements, |statements|, world);
    RunRows(s, statements, |statements|, world);
    var p := Run(s, statements, |statements|, world);
    hide Run, Rows, Consistent, ValidSchema, AllValid, ComputedHarmless, Planned, Returned, Admits, Prepared;
    if k in p.rows { QueryAnswers(s, p, e, a, world, k); }
  }

  lemma {:induction false} PlannedPoints(s: Schema, e: Expr, a: Access)
    requires s.table.primaryKey != [] && Planned(s.table, s.indexes, e, a) && a.PointGets?
    ensures PointKeys(PrimaryColumns(s.table), ConstraintsOf(e)) == Some(a.keys)
  {
    hide ConstraintsOf, PointKeys, Unsatisfiable, InRanges.Split, Matched, Implication.Implies, IndexColumns, PrimaryColumns, KeyRanges.IsEmpty;
  }

  lemma {:induction false} PlannedScans(s: Schema, e: Expr, a: Access)
    requires s.table.primaryKey != [] && Planned(s.table, s.indexes, e, a) && a.IndexScans?
    ensures a.index in s.indexes && IndexAccess(s.table, a.index, e) == Some(a)
  {
    hide ConstraintsOf, PointKeys, Unsatisfiable, InRanges.Split, Matched, Implication.Implies, IndexColumns, PrimaryColumns, KeyRanges.IsEmpty;
  }

  /** No stored row comes to the reader twice, whatever the literals are: neither by two point reads,
      nor by two ranges of an index, but for one over a computed vector or array. */
  lemma {:induction false} ReadOnce(s: Schema, p: Part, e: Expr, a: Access, world: World, k: seq<Byte>, m: nat, n: nat)
    requires ValidSchema(s) && Consistent(s, p, world) && k in p.rows && Planned(s.table, s.indexes, e, a) && m < n
    ensures a.PointGets? && n < |a.keys| ==>
              !(Keys.RowKey(s.table.layout, a.keys[m]) == k && Keys.RowKey(s.table.layout, a.keys[n]) == k)
    ensures a.IndexScans? && n < |a.picks| && (a.index.computed ==> KeyableTypes(a.index.layout.types)) ==>
              forall i | 0 <= i < |s.indexes| && s.indexes[i] == a.index ::
                !(Met(s, p, i, a.picks[m].range, k) && Met(s, p, i, a.picks[n].range, k))
  {
    var row := p.rows[k];
    assert RowValid(s, row) && RowKeyOf(s.table, row) == k;
    TypedIsKeyable(PrimaryValues(s.table, row), s.table.layout.keyTypes);
    hide Planned, Consistent, Met, ConstraintsOf, PointKeys, AllKeyable, Keys.RowKey, RowKeyOf;
    if a.PointGets? && n < |a.keys| {
      PlannedPoints(s, e, a);
      PointGetsReadOnce(s.table, ConstraintsOf(e), row, m, n);
    } else if a.IndexScans? && n < |a.picks| && (a.index.computed ==> KeyableTypes(a.index.layout.types)) {
      PlannedScans(s, e, a);
      ScansReadOnce(s, p, e, a, world, k, m, n);
    }
  }

  lemma {:induction false} ScansReadOnce(s: Schema, p: Part, e: Expr, a: Access, world: World, k: seq<Byte>, m: nat, n: nat)
    requires ValidSchema(s) && Consistent(s, p, world) && k in p.rows && AllKeyable(PrimaryValues(s.table, p.rows[k]))
    requires a.IndexScans? && a.index in s.indexes && IndexAccess(s.table, a.index, e) == Some(a) && KeyableTypes(a.index.layout.types)
    requires m < n < |a.picks|
    ensures forall i | 0 <= i < |s.indexes| && s.indexes[i] == a.index ::
              !(Met(s, p, i, a.picks[m].range, k) && Met(s, p, i, a.picks[n].range, k))
  {
    assert |p.slots| == |s.indexes|;
    EntryReadOnce(s, p, e, a, world, k, m, n);
    hide Consistent, Met, ConstraintsOf, AllKeyable, IndexAccess, EntryKeyOf, Contains, PrimaryValues, ValidSchema, KeyableTypes;
    forall i: nat | i < |s.indexes| && s.indexes[i] == a.index
      ensures !(Met(s, p, i, a.picks[m].range, k) && Met(s, p, i, a.picks[n].range, k))
    {
      MetOnce(s, p, i, a.picks[m].range, a.picks[n].range, world, k);
    }
  }

  lemma {:induction false} MetOnce(s: Schema, p: Part, i: nat, q: KeyRange, r: KeyRange, world: World, k: seq<Byte>)
    requires Consistent(s, p, world) && i < |s.indexes| && k in p.rows
    requires var key := EntryKeyOf(s.table, s.indexes[i], p.rows[k]); !(Contains(q, key) && Contains(r, key))
    ensures !(Met(s, p, i, q, k) && Met(s, p, i, r, k))
  {
    assert |p.slots| == |s.indexes|;
    hide Consistent, Met, Contains, EntryKeyOf, Indexed;
    MetIffReached(s, p, i, q, world, k);
    MetIffReached(s, p, i, r, world, k);
  }

  lemma {:induction false} EntryReadOnce(s: Schema, p: Part, e: Expr, a: Access, world: World, k: seq<Byte>, m: nat, n: nat)
    requires ValidSchema(s) && Consistent(s, p, world) && k in p.rows && AllKeyable(PrimaryValues(s.table, p.rows[k]))
    requires a.IndexScans? && a.index in s.indexes && IndexAccess(s.table, a.index, e) == Some(a) && KeyableTypes(a.index.layout.types)
    requires m < n < |a.picks|
    ensures var key := EntryKeyOf(s.table, a.index, p.rows[k]); !(Contains(a.picks[m].range, key) && Contains(a.picks[n].range, key))
  {
    var row := p.rows[k];
    assert RowValid(s, row);
    var x: nat :| x < |s.indexes| && s.indexes[x] == a.index;
    assert Keys.IsIndexed(s.indexes[x].layout, ValuesFrom(row, s.indexes[x].columns, 0));
    hide Consistent, RowValid, ConstraintsOf, AllKeyable, KeyFits, InRanges.SplitsPlain, IndexAccess, EntryKeyOf, Contains, PrimaryValues, ValuesFrom, KeyableTypes;
    TypedIsKeyable(ValuesFrom(row, a.index.columns, 0), a.index.layout.types);
    EntryPlain(s.table, a.index, ConstraintsOf(e), row);
    IndexScansReadOnce(s.table, a.index, e, row, m, n);
  }
}
