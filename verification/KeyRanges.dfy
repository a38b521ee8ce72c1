/** Regions of the keyspace: what a range holds, and what two of them hold together. */
module KeyRanges {
  import opened ByteStrings
  import Ranges
  import ValueOrder

  datatype Limit = Unbounded | Included(key: seq<Byte>) | Excluded(key: seq<Byte>)

  datatype KeyRange = KeyRange(start: Limit, end: Limit)

  const ALL: KeyRange := KeyRange(Unbounded, Unbounded)

  function PrefixEnd(prefix: seq<Byte>): Limit {
    var b := Ranges.PrefixSuccessor(prefix);
    if b.Unbounded? then Unbounded else Excluded(b.key)
  }

  /** `KeyRange::prefix`. */
  function PrefixRange(prefix: seq<Byte>): KeyRange { KeyRange(Included(prefix), PrefixEnd(prefix)) }

  predicate AboveStart(start: Limit, key: seq<Byte>) {
    match start
    case Unbounded => true
    case Included(s) => Lex(key, s) != Less
    case Excluded(s) => Lex(key, s) == Greater
  }

  predicate BelowEnd(end: Limit, key: seq<Byte>) {
    match end
    case Unbounded => true
    case Included(e) => Lex(key, e) != Greater
    case Excluded(e) => Lex(key, e) == Less
  }

  predicate Contains(r: KeyRange, key: seq<Byte>) { AboveStart(r.start, key) && BelowEnd(r.end, key) }

  predicate IsEmpty(r: KeyRange) {
    match (r.start, r.end)
    case (Included(s), Included(e)) => Lex(s, e) == Greater
    case (Included(s), Excluded(e)) => Lex(s, e) != Less
    case (Excluded(s), Excluded(e)) => Lex(s, e) != Less
    case (Excluded(s), Included(e)) => Lex(s, e) != Less
    case _ => false
  }

  function MaxStart(a: Limit, b: Limit): Limit {
    if a.Unbounded? then b
    else if b.Unbounded? then a
    else match Lex(a.key, b.key)
         case Greater => a
         case Less => b
         case Equal => if a.Excluded? then a else b
  }

  function MinEnd(a: Limit, b: Limit): Limit {
    if a.Unbounded? then b
    else if b.Unbounded? then a
    else match Lex(a.key, b.key)
         case Less => a
         case Greater => b
         case Equal => if a.Excluded? then a else b
  }

  function Intersect(a: KeyRange, b: KeyRange): KeyRange {
    KeyRange(MaxStart(a.start, b.start), MinEnd(a.end, b.end))
  }

  /** The keys of a prefix range are those that begin with it. */
  lemma {:induction false} PrefixRangeContains(prefix: seq<Byte>, key: seq<Byte>)
    ensures Contains(PrefixRange(prefix), key) <==> IsPrefix(prefix, key)
  {
    Ranges.PrefixRangeExact(prefix, key);
    LexAntisymmetric(prefix, key);
    hide Lex, Ranges.PrefixSuccessor;
  }

  /** Under the end of a prefix range: below the prefix, or beginning with it. */
  lemma {:induction false} BelowPrefixEnd(prefix: seq<Byte>, key: seq<Byte>)
    ensures BelowEnd(PrefixEnd(prefix), key) <==> Lex(key, prefix) == Less || IsPrefix(prefix, key)
  {
    PrefixRangeContains(prefix, key);
    if Lex(key, prefix) == Less {
      PrefixRangeContains(prefix, prefix);
      var b := Ranges.PrefixSuccessor(prefix);
      hide Lex, Ranges.PrefixSuccessor;
      assert IsPrefix(prefix, prefix);
      if b.Excluded? { LexTransitive(key, prefix, b.key); }
    }
  }

  lemma {:induction false} MaxStartExact(a: Limit, b: Limit, key: seq<Byte>)
    ensures AboveStart(MaxStart(a, b), key) <==> AboveStart(a, key) && AboveStart(b, key)
  {
    if !a.Unbounded? && !b.Unbounded? {
      ValueOrder.LexChain(key, a.key, b.key);
      ValueOrder.LexChain(key, b.key, a.key);
      LexAntisymmetric(a.key, b.key);
      hide Lex;
    }
  }

  lemma {:induction false} MinEndExact(a: Limit, b: Limit, key: seq<Byte>)
    ensures BelowEnd(MinEnd(a, b), key) <==> BelowEnd(a, key) && BelowEnd(b, key)
  {
    if !a.Unbounded? && !b.Unbounded? {
      ValueOrder.LexChain(key, a.key, b.key);
      ValueOrder.LexChain(key, b.key, a.key);
      LexAntisymmetric(a.key, b.key);
      hide Lex;
    }
  }

  /** The intersection holds exactly the keys both hold. */
  lemma {:induction false} IntersectExact(a: KeyRange, b: KeyRange, key: seq<Byte>)
    ensures Contains(Intersect(a, b), key) <==> Contains(a, key) && Contains(b, key)
  {
    MaxStartExact(a.start, b.start, key);
    MinEndExact(a.end, b.end, key);
    hide AboveStart, BelowEnd, MaxStart, MinEnd;
  }

  /** A range called empty holds nothing. */
  lemma {:induction false} EmptyHoldsNothing(r: KeyRange, key: seq<Byte>)
    requires IsEmpty(r)
    ensures !Contains(r, key)
  {
    var s, e := r.start.key, r.end.key;
    ValueOrder.LexChain(key, s, e);
    ValueOrder.LexChain(s, key, e);
    LexAntisymmetric(s, key);
    hide Lex;
  }

  /** Open below, and nothing sorts between the two ends; or nothing sorts below the end at all. */
  predicate HiddenGap(r: KeyRange) {
    r.end.Excluded? && (r.end.key == [] || (r.start.Excluded? && r.end.key == Ranges.KeySuccessor(r.start.key)))
  }

  /** Some key of a range that is not called empty. */
  lemma {:induction false} Inhabitant(r: KeyRange) returns (key: seq<Byte>)
    requires !IsEmpty(r) && !HiddenGap(r)
    ensures Contains(r, key)
  {
    match r.start
    case Unbounded =>
      key := [];
      if !r.end.Unbounded? { LexEmpty(r.end.key); }
    case Included(s) =>
      key := s;
      LexReflexive(s);
    case Excluded(s) =>
      key := Ranges.KeySuccessor(s);
      Ranges.KeySuccessorAdjacent(s, key);
      LexReflexive(key);
      LexAntisymmetric(s, key);
      if !r.end.Unbounded? {
        var e := r.end.key;
        Ranges.KeySuccessorAdjacent(s, e);
        LexAntisymmetric(key, e);
      }
      hide Lex;
  }

  lemma {:induction false} GapHoldsNothing(r: KeyRange, key: seq<Byte>)
    requires HiddenGap(r)
    ensures !Contains(r, key)
  {
    LexEmpty(key);
    if r.start.Excluded? {
      Ranges.KeySuccessorAdjacent(r.start.key, key);
      LexAntisymmetric(r.start.key, key);
      LexAntisymmetric(r.end.key, key);
    }
    hide Lex;
  }

  /** `is_empty` misses just the ranges with a hidden gap. */
  lemma {:induction false} IsEmptyIff(r: KeyRange)
    ensures (forall key :: !Contains(r, key)) <==> IsEmpty(r) || HiddenGap(r)
  {
    if IsEmpty(r) {
      forall key ensures !Contains(r, key) { EmptyHoldsNothing(r, key); }
    } else if HiddenGap(r) {
      forall key ensures !Contains(r, key) { GapHoldsNothing(r, key); }
    } else {
      var key := Inhabitant(r);
    }
  }
}
