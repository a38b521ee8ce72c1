/** The keyspace: where rows and index entries live, and what a range of it holds. */
module Keys {
  import opened ByteStrings
  import opened Values
  import opened ValueOrder
  import opened Encoding
  import opened Tuples
  import opened Decoding
  import opened RoundTrip
  import opened Ranges
  import Locality

  const ROW_SPACE: Byte := 0x01
  const INDEX_SPACE: Byte := 0x02

  /** `tenant`: the first primary key column names the tenant. */
  datatype Table = Table(id: UInt32, tenant: bool, keyTypes: seq<ValueType>)

  datatype Index = Index(id: UInt32, unique: bool, types: seq<ValueType>, directions: seq<Direction>)

  predicate ValidTable(t: Table) { t.keyTypes != [] }

  predicate ValidIndex(i: Index) { |i.types| == |i.directions| }

  ghost predicate AllStorable(vs: seq<Value>) { forall v | v in vs :: Storable(v) }

  /** A primary key the schema layer would hand over. */
  ghost predicate IsKeyOf(t: Table, pk: seq<Value>) {
    ValidTable(t) && AllTyped(pk, t.keyTypes) && AllStorable(pk)
  }

  ghost predicate IsIndexed(i: Index, vs: seq<Value>) {
    ValidIndex(i) && AllTyped(vs, i.types) && AllStorable(vs)
  }

  function Header(space: Byte, id: UInt32): (r: seq<Byte>)
    ensures |r| == 5
  {
    [space] + Count(id)
  }

  function TablePrefix(t: Table): seq<Byte> { Header(ROW_SPACE, t.id) }

  function TenantPrefix(t: Table, tenant: Value): seq<Byte> { TablePrefix(t) + Encode(tenant, Asc) }

  function RowKey(t: Table, pk: seq<Value>): seq<Byte> { TablePrefix(t) + EncodeWith(pk, []) }

  /** The tenant value prepended to an index key, as zero or one values. */
  function TenantOf(t: Table, pk: seq<Value>): seq<Value> {
    if t.tenant && pk != [] then [pk[0]] else []
  }

  function IndexPrefix(t: Table, i: Index, tenant: seq<Value>): seq<Byte> {
    Header(INDEX_SPACE, i.id) + if t.tenant then EncodeWith(tenant, []) else []
  }

  predicate HasNull(vs: seq<Value>) { exists v :: v in vs && v.Null? }

  predicate Enforces(i: Index, vs: seq<Value>) { i.unique && !HasNull(vs) }

  datatype Entry = Entry(key: seq<Byte>, value: seq<Byte>)

  function IndexStem(t: Table, i: Index, vs: seq<Value>, pk: seq<Value>): seq<Byte> {
    Header(INDEX_SPACE, i.id) + EncodeWith(TenantOf(t, pk), []) + EncodeWith(vs, i.directions)
  }

  /** `index_entry`: the primary key is left out of the key when the key itself enforces uniqueness. */
  function IndexEntry(t: Table, i: Index, vs: seq<Value>, pk: seq<Value>): Entry {
    if Enforces(i, vs) then Entry(IndexStem(t, i, vs, pk), EncodeWith(pk, []))
    else Entry(IndexStem(t, i, vs, pk) + EncodeWith(pk, []), [])
  }

  // ----- Order

  /** Tuples of one length decide each other by a byte inside both. */
  lemma {:induction false} TupleRealises(a: seq<Value>, b: seq<Value>, dirs: seq<Direction>)
    requires |a| == |b| && AllFit(a) && AllFit(b)
    ensures Realises(CompareTuples(a, b, dirs), EncodeWith(a, dirs), EncodeWith(b, dirs))
    decreases |a|
  {
    if a != [] {
      hide Compare, Element;
      DirectedOrder(a[0], b[0], Encoding.Head(dirs));
      TupleRealises(a[1..], b[1..], Encoding.Tail(dirs));
      RealisesThen(Directed(Compare(a[0], b[0]), Encoding.Head(dirs)), Encode(a[0], Encoding.Head(dirs)), Encode(b[0], Encoding.Head(dirs)),
                   CompareTuples(a[1..], b[1..], Encoding.Tail(dirs)), EncodeWith(a[1..], Encoding.Tail(dirs)), EncodeWith(b[1..], Encoding.Tail(dirs)));
    }
  }

  lemma {:induction false} HeaderOrder(s: Byte, a: UInt32, b: UInt32)
    ensures Realises(CompareInts(a, b), Header(s, a), Header(s, b))
  {
    Pow256Words();
    BigEndianOrder(a, b, 4);
    RealisesThen(Equal, [s], [s], CompareInts(a, b), Count(a), Count(b));
  }

  /** Rows of one table are stored in primary key order. */
  lemma {:induction false} RowKeyOrder(t: Table, a: seq<Value>, b: seq<Value>)
    requires AllFit(a) && AllFit(b)
    ensures Lex(RowKey(t, a), RowKey(t, b)) == CompareTuples(a, b, [])
  {
    TupleOrder(a, b, []);
    LexSharedPrefix(TablePrefix(t), EncodeWith(a, []), EncodeWith(b, []));
  }

  lemma {:induction false} StorableFits(vs: seq<Value>)
    requires AllStorable(vs)
    ensures AllFit(vs)
  {
  }

  /** The index order: by tenant, then the indexed values under their directions, then the key. */
  lemma {:induction false} IndexKeyOrder(t: Table, i: Index, u: seq<Value>, p: seq<Value>, v: seq<Value>, q: seq<Value>)
    requires IsIndexed(i, u) && IsIndexed(i, v) && IsKeyOf(t, p) && IsKeyOf(t, q)
    ensures Realises(CompareTuples(TenantOf(t, p), TenantOf(t, q), []).Then(CompareTuples(u, v, i.directions)),
                     IndexStem(t, i, u, p), IndexStem(t, i, v, q))
    ensures !Enforces(i, u) && !Enforces(i, v) ==>
              Realises(CompareTuples(TenantOf(t, p), TenantOf(t, q), []).Then(CompareTuples(u, v, i.directions)).Then(CompareTuples(p, q, [])),
                       IndexEntry(t, i, u, p).key, IndexEntry(t, i, v, q).key)
  {
    hide Compare, Element, CompareTuples, EncodeWith, Storable, Fits;
    StorableFits(u); StorableFits(v); StorableFits(p); StorableFits(q);
    var h := Header(INDEX_SPACE, i.id);
    var x, y := TenantOf(t, p), TenantOf(t, q);
    TupleRealises(x, y, []);
    TupleRealises(u, v, i.directions);
    TupleRealises(p, q, []);
    var o, o' := CompareTuples(x, y, []), CompareTuples(u, v, i.directions);
    RealisesThen(Equal, h, h, o, EncodeWith(x, []), EncodeWith(y, []));
    RealisesThen(o, h + EncodeWith(x, []), h + EncodeWith(y, []), o', EncodeWith(u, i.directions), EncodeWith(v, i.directions));
    RealisesThen(o.Then(o'), IndexStem(t, i, u, p), IndexStem(t, i, v, q), CompareTuples(p, q, []), EncodeWith(p, []), EncodeWith(q, []));
  }

  // ----- Partition

  lemma {:induction false} HeaderPrefix(s: Byte, a: UInt32, r: Byte, b: UInt32, rest: seq<Byte>)
    ensures IsPrefix(Header(s, a), Header(r, b) + rest) <==> s == r && a == b
  {
    if s != r {
      NotPrefixAt(Header(s, a), Header(r, b) + rest, 0);
    } else {
      HeaderOrder(s, a, b);
      RealisesPrefix(CompareInts(a, b), Header(s, a), Header(s, b), rest);
    }
  }

  /** A table scan reads that table's rows and nothing else, index entries included. */
  lemma {:induction false} TableScanExact(t: Table, u: Table, i: Index, pk: seq<Value>, vs: seq<Value>)
    ensures InPrefixRange(RowKey(u, pk), TablePrefix(t)) <==> u.id == t.id
    ensures !InPrefixRange(IndexEntry(u, i, vs, pk).key, TablePrefix(t))
  {
    PrefixRangeExact(TablePrefix(t), RowKey(u, pk));
    HeaderPrefix(ROW_SPACE, t.id, ROW_SPACE, u.id, EncodeWith(pk, []));
    var key := IndexEntry(u, i, vs, pk).key;
    PrefixRangeExact(TablePrefix(t), key);
    NotPrefixAt(TablePrefix(t), key, 0);
  }

  /** A tenant's range holds the rows of that tenant in that table, and no one else's. */
  lemma {:induction false} TenantScanExact(t: Table, u: Table, tenant: Value, pk: seq<Value>)
    requires Fits(tenant) && AllFit(pk) && pk != []
    ensures InPrefixRange(RowKey(u, pk), TenantPrefix(t, tenant)) <==> u.id == t.id && Compare(tenant, pk[0]) == Equal
  {
    hide Compare, Element;
    var h, k := TablePrefix(t), TablePrefix(u);
    var x, y := Encode(tenant, Asc), EncodeWith(pk, []);
    PrefixRangeExact(h + x, k + y);
    HeaderPrefix(ROW_SPACE, t.id, ROW_SPACE, u.id, y);
    PrefixOfConcat(h, x, k + y);
    ElementsPrefixFree(tenant, pk[0], Asc, EncodeWith(pk[1..], []));
    if t.id == u.id { IsPrefixSplit(h, x, k, y); }
  }

  lemma {:induction false} HeaderInjective(s: Byte, a: UInt32, b: UInt32)
    ensures Header(s, a) == Header(s, b) <==> a == b
  {
    HeaderOrder(s, a, b);
    RealisesPrefix(CompareInts(a, b), Header(s, a), Header(s, b), []);
  }

  /** On a table that has a tenant its encoding follows the header of every entry. */
  lemma {:induction false} TenantLeads(t: Table, i: Index, vs: seq<Value>, pk: seq<Value>) returns (tail: seq<Byte>)
    requires t.tenant && pk != []
    ensures IndexEntry(t, i, vs, pk).key == Header(INDEX_SPACE, i.id) + (Encode(pk[0], Asc) + tail)
  {
    var x, y, z := Encode(pk[0], Asc), EncodeWith(vs, i.directions), if Enforces(i, vs) then [] else EncodeWith(pk, []);
    assert EncodeWith(TenantOf(t, pk), []) == x by { assert [pk[0]][1..] == []; }
    tail := y + z;
    hide Enforces, Encode, EncodeWith, TenantOf, Header;
    FourParts(Header(INDEX_SPACE, i.id), x, y, z);
  }

  /** The same partition of an index: its entries under a tenant prefix are that tenant's. */
  lemma {:induction false} TenantIndexScanExact(t: Table, i: Index, j: Index, tenant: Value, vs: seq<Value>, pk: seq<Value>)
    requires t.tenant && IsKeyOf(t, pk) && Storable(tenant)
    ensures InPrefixRange(IndexEntry(t, j, vs, pk).key, IndexPrefix(t, i, [tenant]))
       <==> i.id == j.id && Compare(tenant, pk[0]) == Equal
  {
    assert pk[0] in pk && Fits(pk[0]) && Fits(tenant);
    var tail := TenantLeads(t, j, vs, pk);
    var h, k := Header(INDEX_SPACE, i.id), Header(INDEX_SPACE, j.id);
    var x, y := Encode(tenant, Asc), Encode(pk[0], Asc) + tail;
    assert EncodeWith([tenant], []) == x by { assert [tenant][1..] == []; }
    assert IndexPrefix(t, i, [tenant]) == h + x;
    hide EncodeWith, IndexEntry, IndexPrefix, AllTyped, Fits, Storable, Compare, Encode, InPrefixRange, Header;
    PrefixRangeExact(h + x, k + y);
    HeaderInjective(INDEX_SPACE, i.id, j.id);
    IsPrefixSplit(h, x, k, y);
    ElementsPrefixFree(tenant, pk[0], Asc, tail);
  }

  // ----- Uniqueness

  lemma {:induction false} EqualTuplesShareNulls(a: seq<Value>, b: seq<Value>, dirs: seq<Direction>)
    requires |a| == |b| && CompareTuples(a, b, dirs) == Equal
    ensures HasNull(a) <==> HasNull(b)
    decreases |a|
  {
    if a != [] {
      EqualTuplesShareNulls(a[1..], b[1..], Encoding.Tail(dirs));
      assert a[0].Null? <==> b[0].Null?;
      HasNullCons(a);
      HasNullCons(b);
    }
  }

  lemma {:induction false} HasNullCons(a: seq<Value>)
    requires a != []
    ensures HasNull(a) <==> a[0].Null? || HasNull(a[1..])
  {
    assert forall v :: v in a <==> v == a[0] || v in a[1..];
  }

  lemma {:induction false} EntryDiffersByPrefix(o: Ordering, x: seq<Byte>, y: seq<Byte>, s: seq<Byte>, t: seq<Byte>)
    requires Realises(o, x, y) && o != Equal
    ensures x + s != y + t
  {
    RealisesThen(o, x, y, Equal, s, t);
    RealisesLex(o, x + s, y + t);
    LexReflexive(x + s);
  }

  /** Two rows write the same index key exactly when tenant and indexed values are equal and
      either the key enforces uniqueness or the rows share their primary key: duplicates of a
      unique index collide in the store, and rows with a null never do. */
  lemma {:induction false} IndexKeysCollideIff(t: Table, i: Index, u: seq<Value>, p: seq<Value>, v: seq<Value>, q: seq<Value>)
    requires IsIndexed(i, u) && IsIndexed(i, v) && IsKeyOf(t, p) && IsKeyOf(t, q)
    ensures IndexEntry(t, i, u, p).key == IndexEntry(t, i, v, q).key
       <==> CompareTuples(TenantOf(t, p), TenantOf(t, q), []) == Equal
            && CompareTuples(u, v, i.directions) == Equal
            && (Enforces(i, u) || CompareTuples(p, q, []) == Equal)
  {
    hide Compare, Element, EncodeWith, Storable, Fits, HasNull;
    IndexKeyOrder(t, i, u, p, v, q);
    var o := CompareTuples(TenantOf(t, p), TenantOf(t, q), []).Then(CompareTuples(u, v, i.directions));
    var x, y := IndexStem(t, i, u, p), IndexStem(t, i, v, q);
    hide CompareTuples, IndexStem, TenantOf;
    if o != Equal {
      EntryDiffersByPrefix(o, x, y, EncodeWith(p, []), EncodeWith(q, []));
      EntryDiffersByPrefix(o, x, y, [], EncodeWith(q, []));
      EntryDiffersByPrefix(o, x, y, EncodeWith(p, []), []);
      EntryDiffersByPrefix(o, x, y, [], []);
      assert x + [] == x && y + [] == y;
    } else {
      EqualTuplesShareNulls(u, v, i.directions);
      RealisesPrefix(o, x, y, []);
      if !Enforces(i, u) {
        RealisesPrefix(o.Then(CompareTuples(p, q, [])), IndexEntry(t, i, u, p).key, IndexEntry(t, i, v, q).key, []);
      }
    }
  }

  // ----- Reading entries back

  datatype KeyError = KeyDecode(error: TupleError) | CorruptIndexEntry

  datatype Outcome<+T> = Found(value: T) | Failed(error: KeyError)

  /** `decode_index_entry`. */
  function DecodeIndexEntry(t: Table, i: Index, key: seq<Byte>, value: seq<Byte>): Outcome<(seq<Value>, seq<Value>)> {
    if |key| < 5 then Failed(CorruptIndexEntry)
    else if t.tenant && t.keyTypes == [] then Failed(CorruptIndexEntry)
    else
      var tenant := ReadAll(key[5..], 0, if t.tenant then t.keyTypes[..1] else [], [], []);
      if tenant.Fail? then Failed(KeyDecode(tenant.error))
      else
        var body := key[5..][tenant.next..];
        var columns := ReadAll(body, 0, i.types, i.directions, []);
        if columns.Fail? then Failed(KeyDecode(columns.error))
        else
          var rest := body[columns.next..];
          var inValue := Enforces(i, columns.value);
          if (if inValue then rest else value) != [] then Failed(CorruptIndexEntry)
          else
            var pk := Decode(if inValue then value else rest, t.keyTypes);
            if pk.Fail? then Failed(KeyDecode(pk.error)) else Found((columns.value, pk.value))
  }

  lemma {:induction false} SameValuesShareNulls(a: seq<Value>, b: seq<Value>)
    requires SameValues(a, b)
    ensures HasNull(a) <==> HasNull(b)
  {
    if a != [] {
      assert Compare(a[0], b[0]) == Equal;
      SameValuesShareNulls(a[1..], b[1..]);
      HasNullCons(a);
      HasNullCons(b);
    }
  }

  /** What `ReadAll` makes of an encoded tuple and a suffix, as one fact. */
  lemma {:induction false} ColumnsReadBack(vs: seq<Value>, types: seq<ValueType>, dirs: seq<Direction>, rest: seq<Byte>)
    requires AllTyped(vs, types) && AllStorable(vs)
    ensures var r := ReadAll(EncodeWith(vs, dirs) + rest, 0, types, dirs, []);
            r.Done? && (EncodeWith(vs, dirs) + rest)[r.next..] == rest && SameValues(vs, r.value)
  {
    DecodePrefixRoundTrip(vs, types, dirs, rest);
  }

  lemma {:induction false} KeyReadsBack(t: Table, pk: seq<Value>)
    requires IsKeyOf(t, pk)
    ensures var r := Decode(EncodeWith(pk, []), t.keyTypes); r.Done? && SameValues(pk, r.value)
  {
    DecodeRoundTrip(pk, t.keyTypes);
  }

  /** `decode_row_key`. */
  function DecodeRowKey(t: Table, key: seq<Byte>): Outcome<seq<Value>> {
    if |key| < 5 then Failed(KeyDecode(Truncated(|key|, 5 - |key|)))
    else
      var r := Decode(key[5..], t.keyTypes);
      if r.Done? then Found(r.value) else Failed(KeyDecode(r.error))
  }

  lemma {:induction false} RowKeyRoundTrip(t: Table, pk: seq<Value>)
    requires IsKeyOf(t, pk)
    ensures var r := DecodeRowKey(t, RowKey(t, pk)); r.Found? && SameValues(pk, r.value)
  {
    assert RowKey(t, pk)[5..] == EncodeWith(pk, []);
    KeyReadsBack(t, pk);
  }

  lemma {:induction false} TenantReadsBack(t: Table, pk: seq<Value>, rest: seq<Byte>)
    requires IsKeyOf(t, pk)
    ensures var bytes := EncodeWith(TenantOf(t, pk), []) + rest;
            var r := ReadAll(bytes, 0, if t.tenant then t.keyTypes[..1] else [], [], []);
            r.Done? && bytes[r.next..] == rest
  {
    ColumnsReadBack(TenantOf(t, pk), if t.tenant then t.keyTypes[..1] else [], [], rest);
  }

  /** Every entry `index_entry` writes is read back to the row it came from, wherever the
      primary key was put. */
  lemma {:induction false} IndexEntryRoundTrip(t: Table, i: Index, vs: seq<Value>, pk: seq<Value>)
    requires IsIndexed(i, vs) && IsKeyOf(t, pk)
    ensures var e := IndexEntry(t, i, vs, pk);
            var r := DecodeIndexEntry(t, i, e.key, e.value);
            r.Found? && SameValues(vs, r.value.0) && SameValues(pk, r.value.1)
  {
    hide EncodeWith, ReadAll, Decode, Compare, Storable, HasNull, TenantOf;
    var e := IndexEntry(t, i, vs, pk);
    var h, x, y := Header(INDEX_SPACE, i.id), EncodeWith(TenantOf(t, pk), []), EncodeWith(vs, i.directions);
    var tail := if Enforces(i, vs) then [] else EncodeWith(pk, []);
    assert e.key == h + (x + (y + tail));
    assert e.key[5..] == x + (y + tail);
    TenantReadsBack(t, pk, y + tail);
    ColumnsReadBack(vs, i.types, i.directions, tail);
    SameValuesShareNulls(vs, ReadAll(y + tail, 0, i.types, i.directions, []).value);
    KeyReadsBack(t, pk);
  }

  /** A row key with anything behind it is refused, for what is behind it. */
  lemma {:induction false} RowKeyExact(t: Table, pk: seq<Value>, x: seq<Byte>)
    requires IsKeyOf(t, pk)
    ensures var r := DecodeRowKey(t, RowKey(t, pk) + x);
            && (r.Found? <==> x == [])
            && (r.Found? ==> SameValues(pk, r.value))
            && (r.Failed? ==> r.error == KeyDecode(TrailingBytes(|pk|, |x|)))
  {
    assert (RowKey(t, pk) + x)[5..] == EncodeWith(pk, []) + x;
    Locality.DecodeExactly(pk, t.keyTypes, x);
    hide EncodeWith, Decode, Storable, Compare;
  }

  /** So is an index entry with anything behind its key or its value: the part that should end with the
      primary key is refused for its tail, and the part that should be empty as corrupt. */
  lemma {:induction false} EntryExact(t: Table, i: Index, vs: seq<Value>, pk: seq<Value>, x: seq<Byte>, y: seq<Byte>)
    requires IsIndexed(i, vs) && IsKeyOf(t, pk)
    ensures var e, own := IndexEntry(t, i, vs, pk), if Enforces(i, vs) then (x, y) else (y, x);
            var r := DecodeIndexEntry(t, i, e.key + x, e.value + y);
            && (r.Found? <==> x == [] && y == [])
            && (r.Found? ==> SameValues(vs, r.value.0) && SameValues(pk, r.value.1))
            && (r.Failed? ==> r.error == if own.0 != [] then CorruptIndexEntry else KeyDecode(TrailingBytes(|pk|, |own.1|)))
  {
    hide EncodeWith, ReadAll, Decode, Compare, Storable, HasNull, TenantOf;
    var e := IndexEntry(t, i, vs, pk);
    var h, a, b := Header(INDEX_SPACE, i.id), EncodeWith(TenantOf(t, pk), []), EncodeWith(vs, i.directions);
    var tail := (if Enforces(i, vs) then [] else EncodeWith(pk, [])) + x;
    assert e.key + x == h + (a + (b + tail));
    assert (e.key + x)[5..] == a + (b + tail);
    TenantReadsBack(t, pk, b + tail);
    ColumnsReadBack(vs, i.types, i.directions, tail);
    SameValuesShareNulls(vs, ReadAll(b + tail, 0, i.types, i.directions, []).value);
    Locality.DecodeExactly(pk, t.keyTypes, if Enforces(i, vs) then y else x);
    assert [] + x == x && [] + y == y;
  }
}
