# Slate, from key bytes to query answers, and the guards around it

A Dafny model of slate-orm, with proofs. It has two parts.

**The database.** Values are encoded into byte strings whose order is the order of the values
(`ByteStrings`, `Values`, `Encoding`, `Tuples`, `Format`), read back from bytes nobody has vouched for
(`Decoding`, `RoundTrip`, `Locality`, `Untrusted`), written and read by the mutable sink and cursor of the source
(`Writer`, `Reader`), and laid out as row keys and index entries (`Keys`, `Ranges`). On top of that
stands the planner: predicates under three-valued logic (`Exprs`, `ThreeValued`, `LikePatterns`, `LikeLaws`), the key ranges
derived from them (`KeyRanges`, `Bounds`, `KeyMatch`, `InRanges`), the test that lets a partial index
stand in for its table (`Implication`), and the result that no way of reading changes an answer
(`Plans`). `Records` and `Transactions` are the write path that keeps the indexes in step with the rows,
and `TornWrite` and `RetiredWrite` the cases where it does not. `Lease` and `LeaseAnswers` are the election of the writer,
as a state machine over a store that can only compare and set.

**The guards.** The repository checks its own prose with scripts that carry state from line to line.
`Struck`, `Text`, `Excuses`, `CostMarkers` and `Chunking` are the cost-claim guard; `Caveats`, `Draws`
and `CheckDraws` the caveat tracker and its sampling protocol; `Tables` and `Provenance` the table
guard; `WasmRuntime`, `CitedFiles`, `NoneLast`, `LiveFrame`, `RetiredClaims`, `RetiredSearch`,
`Handlers` and `ClosedCaveats` the rest.

The main results, and what each rests on:

- `Tuples.TupleOrder` (byte order is value order) rests on `Realises`: two encodings differ at a byte
  inside both, so nothing appended can change the outcome. The same relation gives prefix-freedom,
  exact prefix scans, index order and the exact bounds of the planner.
- `RoundTrip.RoundTripIffStorable` and `Untrusted.DecodeIsCanonicalIff` are the two directions between
  values and bytes, each as an if-and-only-if.
- `Plans.PlanExact` says that any access the planner could settle on, followed by the prepared
  residual, returns a row exactly when the predicate admits it; `Transactions.QueryAnswers` carries
  that through the index entries that any run of writes leaves behind, and `RunAnswers` from the
  statements themselves, for a table that has no indexes at all.
- `ThreeValued.DeMorgan`, `ComparisonLaws` and `InIsAny` say what a predicate means apart from the
  evaluator, as `LikeLaws` does for patterns.
- `Transactions.CheckedWrite`, `RefusedWrite` and `UncheckedWrite` say exactly when a write keeps the
  indexes in step, `RefusedIff` says in terms of the rows' values when one is refused, and `StoredIff`
  what a run leaves at each key.
- `Lease.LeadersAreOrdered`, `ContestedOnce` and `SteppedDownIsFinalIff` hold in every run, with lost
  replies, any clocks and step-downs at any moment.

## What the code does that its prose does not say

- A refused write does leave something behind. `record.rs:502-504` says that a failed check leaves
  nothing buffered because every check runs before anything is written. The uniqueness check of one
  index runs after the entries of the indexes before it are written and after the row's old entry in
  the same index is deleted. `RefusedWrite` gives the exact condition, `RefusedUpdateTears` an update.
- `record.rs:2423-2426` argues that a soft delete needs no uniqueness check, because no index can gain
  an entry by it. `UncheckedWrite` says exactly when that is so. `RetiredRowTears` gives two schemas
  where it is not: a unique partial index of the retired rows, which starts to admit the row, and a
  plain unique index over a column and the retirement, where two rows retired at one reading of the
  clock share an entry.
- A step-down is not terminal (`leadership.rs:9-19`). `campaign` and `renew` publish their answer after
  an await, whatever the standing has become meanwhile. A node that is fenced while a renewal is on the
  way leads again when that lands (`FencedLeaderComesBack`); one that resigns while a campaign is on the
  way follows or leads again. `SteppedDownIsFinalIff` is the exact condition.
- A vector with more than 2^32 - 1 elements is written short, and so is an array that holds one. The
  order law holds exactly for the values that fit (`OrderLawIff`). The schema refuses vectors and arrays
  in a primary key and in the columns of an index (`table.rs:1767-1786`), and no bound on any other
  value loses one, whatever the literal. An index over a computed value is not asked. There a `<` with
  such a literal loses a row, a `<=` too unless it is a vector of which only NaNs are written, and `>`
  and `>=` never do (`LosesNoneIff`, and `AdmittedInIff` row by row); `LongLiteralLosesRow` is the plan
  that misses one.
- The ranges of an `IN` are called disjoint (`plan.rs:1898-1903`). Two of them share a key just if their
  values share their bytes, of which one does not fit then (`NoKeyTwice`). No stored row of a key column
  is read twice for it (`ReadOnce`); one with a computed vector can be (`RowReadTwice`).
- Arrays inside arrays are written and then refused; the decoder takes every NaN pattern, so two
  byte strings can hold one value (`ForeignNanAccepted`); an integer below the signed range is refused
  by a typed read and loses its sign in an untyped one (`SignDropped`).
- `codec.rs` gives zero the code `0x14` in prose; the code and the table use `0x15`. Its warning that a
  suffix beginning with `0xFF` would be misread after a prefix no longer applies: the terminator is two
  bytes, and `DecodePrefixRoundTrip` holds for every suffix.
- `KeyRange::is_empty` misses ranges with nothing between their ends (`IsEmptyIff`).
- Lease generations stop rising at the end of the counter (`SaturatedRepeats`).
- The cost guard drops live text in a chunk that starts inside a struck span and holds two markers or
  more (`KeptExactIff`), and the prose directly above a fence that is never closed (`UnflushedIff`).
- The retired-claims guard looks for its mark up to two lines below the *next* word, not the claim
  (`AsDescribedIff`). Past a letter U+0130, which takes two places in lower case, it may report a line
  further down (`LineTooLow`; just when, `ReportedLine`), exempt a live claim (`LiveClaimExempted`) and
  report a struck one (`StruckClaimReported`; just when neither can be, `ShiftHarmlessIff`).
- `None` in the right arm of a union is reported there and again above it (`RightArmReported`). The draw checker
  raises on a record with more indices than its frame.

## How the source is modelled

Floats are their IEEE-754 bit patterns. The XOR mask of a descending column is `255 - b`. A character
is the UTF-8 sequence that spells it. Case-blind `LIKE`, regular expressions and term search are given
by a table of which text passes which test. Values computed for an expression index stand in the row
after its columns. An association list with one entry per column is a map. Sorting is an
insertion sort where the order matters, and elsewhere any arrangement. A table's part of the store is
its rows and one map per index, which the key headers keep apart. The lease store gives each write that
lands a version no object had, and no two clients share a name. In the scripts, what a pattern finds on
a line is a field of the line; sampling, digests and the tree are arguments.

Every induction is written out: automatic induction is switched off on every lemma.

## Model

| member | source | states |
|---|---|---|
| Encoding.MagnitudeLenIsLeadingZeros | crates/slate-tuple/src/codec.rs:188-195 | the width from the leading zeros is the least number of bytes that holds the magnitude |
| Encoding.IntegerOrder | crates/slate-tuple/src/codec.rs:235-262 | signed and unsigned integers interleave: the bytes of any two decide in numeric order at a byte inside both |
| Encoding.TerminatedOrder | crates/slate-tuple/src/codec.rs:214-230 | zero-escaping and the two-byte terminator keep lexicographic order, shorter first, whatever follows |
| Encoding.FloatOrder | crates/slate-tuple/src/codec.rs:139-178 | the unsigned order of the flipped patterns is IEEE total order with one NaN above every number |
| Encoding.FloatRoundTrip | crates/slate-tuple/src/codec.rs:139-186 | unflipping gives the pattern back, NaNs made one |
| Encoding.VectorOrder | crates/slate-tuple/src/codec.rs:291-352 | vectors sort by length, then element by element |
| Encoding.ElementOrder | crates/slate-tuple/src/codec.rs:1-66 | the encodings of any two values realise `Ord for Value`, across types and inside arrays |
| Format.TypeCodes | crates/slate-tuple/src/codec.rs:13-26 | the type code each value opens with, in the numbers of the format |
| Format.IntegerLayout | crates/slate-tuple/src/codec.rs:235-262 | an integer is 0x15 up or down by the count of its bytes, and they spell its magnitude, complemented if it is negative, no shorter |
| Format.EscapedLayout | crates/slate-tuple/src/codec.rs:214-230 | bytes stand as they are, each zero followed by 0xFF, and two zeros end them |
| Tuples.TupleOrder | crates/slate-tuple/src/codec.rs:355-383 | byte order equals tuple order over all tuples and all direction lists |
| Tuples.ElementsPrefixFree | crates/slate-tuple/src/codec.rs:1-66 | a buffer begins with a value's encoding exactly when the value it opens with is equal |
| Tuples.PrefixScanIsTuplePrefix | crates/slate-tuple/src/codec.rs:368-383 | keys that begin with an encoded tuple are those of tuples that begin with equal values |
| Tuples.CompareIsLex | crates/slate-tuple/src/value.rs:361-424 | comparing values is comparing their bytes |
| Tuples.TruncateBelow | crates/slate-tuple/src/codec.rs:291-352 | what is written of a value is the value itself if it fits, and a smaller one otherwise, arrays included |
| Tuples.OrderLawIff | crates/slate-tuple/src/codec.rs:1-66 | bytes compare as values do, against every value that fits, exactly for the values that fit |
| Tuples.EncodePrefixSelects | crates/slate-tuple/src/codec.rs:265-288 | the prefix encoding selects exactly the strings that start that way, in either direction |
| ValueOrder.CompareChain | crates/slate-tuple/src/value.rs:361-424 | `cmp` is transitive and equal values are interchangeable, on every value |
| ValueOrder.CompareFlip | crates/slate-tuple/src/value.rs:361-424 | `cmp` is antisymmetric on every value |
| Ranges.ComputePrefixSuccessor | crates/slate-tuple/src/range.rs:15-24 | the scan from the end computes the successor |
| Ranges.PrefixRangeExact | crates/slate-tuple/src/range.rs:26-33 | the range holds exactly the keys that start with the prefix |
| Ranges.PrefixSuccessorLeast | crates/slate-tuple/src/range.rs:10-24 | no smaller end would do |
| Ranges.KeySuccessorAdjacent | crates/slate-tuple/src/range.rs:35-46 | nothing sorts between a key and its successor |
| RoundTrip.ReadAt | crates/slate-tuple/src/codec.rs:539-592 | a typed read finds the value wherever its bytes stand and stops behind them |
| RoundTrip.RoundTripIffStorable | crates/slate-tuple/src/codec.rs:595-622 | a value reads back as an equal one exactly when it is storable |
| RoundTrip.NestedArrayRefused | crates/slate-tuple/src/codec.rs:714-735 | an array inside an array is refused |
| RoundTrip.DecodePrefixRoundTrip | crates/slate-tuple/src/codec.rs:874-893 | a tuple and any suffix at all come back as equal values and that suffix |
| RoundTrip.DecodeRoundTrip | crates/slate-tuple/src/codec.rs:854-871 | an encoded tuple decodes to equal values and no rest |
| Locality.ReadLocal | crates/slate-tuple/src/codec.rs:539-592 | a typed read that succeeds does so on every buffer with the bytes it consumed |
| Locality.DecodeExactly | crates/slate-tuple/src/codec.rs:854-871 | an encoded tuple with anything behind it decodes exactly if nothing is behind it, and else fails with the count of what is |
| Locality.DecodePrefixFree | crates/slate-tuple/src/codec.rs:854-871 | no buffer and a proper beginning of it both decode with the same types, and the longer one is refused for its tail |
| Locality.TypedReadIff | crates/slate-tuple/src/codec.rs:495-592 | a typed read succeeds exactly if the type can hold the value; else an integer is out of range and anything else of the wrong type |
| Untrusted.DecodeIsCanonicalIff | crates/slate-tuple/src/codec.rs:604-735 | accepted bytes are the encoding of what they decode to exactly when the NaNs are canonical and no integer is below the signed range |
| Untrusted.ReadAgreesWithDynamic | crates/slate-tuple/src/codec.rs:539-622 | a typed read that succeeds agrees with the untyped one |
| Untrusted.EqualValuesEqualBytes | crates/slate-tuple/src/codec.rs:539-592 | equal values read from canonical bytes were equal bytes |
| Untrusted.ForeignNanAccepted | crates/slate-tuple/src/codec.rs:178-186 | two byte strings that decode to one NaN |
| Untrusted.SignDropped | crates/slate-tuple/src/codec.rs:604-622 | an integer below the signed range loses its sign |
| Untrusted.SkipFollowsRead | crates/slate-tuple/src/codec.rs:738-850 | skipping stops where reading stops, shares every refusal but those of contents, and past those goes on |
| Writer.Sink.PushEscaped | crates/slate-tuple/src/codec.rs:214-230 | the loop appends the escaped, terminated, masked bytes |
| Writer.Sink.PushInt | crates/slate-tuple/src/codec.rs:235-262 | appends the integer encoding, masked |
| Writer.Sink.PushArray | crates/slate-tuple/src/codec.rs:231-234 | appends each element ascending inside the array and the terminator |
| Writer.EncodeValueInto | crates/slate-tuple/src/codec.rs:291-352 | appends exactly the value's encoding to what was there |
| Writer.EncodeTuple | crates/slate-tuple/src/codec.rs:368-383 | the loop over values and directions is the tuple encoding |
| Reader.TupleReader.ReadEscaped | crates/slate-tuple/src/codec.rs:455-472 | the loop reads what the specification reads and moves there, errors included |
| Reader.TupleReader.ReadIntBody | crates/slate-tuple/src/codec.rs:473-494 | sign, magnitude and the refusal of a padded magnitude |
| Reader.TupleReader.ReadVector | crates/slate-tuple/src/codec.rs:624-712 | count, then elements, then the position |
| Reader.TupleReader.ReadArray | crates/slate-tuple/src/codec.rs:714-735 | elements up to the terminator, or the first error |
| Reader.TupleReader.ReadDynamic | crates/slate-tuple/src/codec.rs:595-622 | the untyped read |
| Reader.TupleReader.Read | crates/slate-tuple/src/codec.rs:539-592 | the typed read, with its type errors |
| Reader.TupleReader.Skip | crates/slate-tuple/src/codec.rs:738-816 | moves past one element without building it |
| Reader.DecodePrefixWith | crates/slate-tuple/src/codec.rs:880-893 | the loop over types and directions is the specification's |
| Reader.DecodeTuple | crates/slate-tuple/src/codec.rs:854-871 | a whole buffer, trailing bytes refused, as `DecodeExactly` and `DecodePrefixFree` say of the specification |
| Keys.RowKeyOrder | crates/slate-kernel/src/keys.rs:117-127 | rows of a table are stored in primary key order |
| Keys.IndexKeyOrder | crates/slate-kernel/src/keys.rs:188-222 | index entries sort by tenant, then values under their directions, then key |
| Keys.TableScanExact | crates/slate-kernel/src/keys.rs:83-87 | a table's prefix holds its rows only, and no index entry |
| Keys.TenantScanExact | crates/slate-kernel/src/keys.rs:104-115 | a tenant's prefix holds that tenant's rows of that table and nobody else's |
| Keys.TenantIndexScanExact | crates/slate-kernel/src/keys.rs:140-154 | the same for an index |
| Keys.IndexKeysCollideIff | crates/slate-kernel/src/keys.rs:188-222 | two rows write one entry key exactly when they must collide; a null never does |
| Keys.RowKeyRoundTrip | crates/slate-kernel/src/keys.rs:129-138 | a row key reads back |
| Keys.IndexEntryRoundTrip | crates/slate-kernel/src/keys.rs:228-275 | an entry reads back to its values and key, wherever the key was put |
| Keys.RowKeyExact | crates/slate-kernel/src/keys.rs:129-138 | a row key with anything behind it is refused, for what is behind it |
| Keys.EntryExact | crates/slate-kernel/src/keys.rs:228-275 | an entry with anything behind its key or its value is refused: for its tail where the primary key ends, as corrupt where nothing should be |
| LikePatterns.LikeMatches | crates/slate-kernel/src/expr.rs:953-1014 | the backtracking loop ends and answers what the pattern means |
| LikePatterns.LikePrefix | crates/slate-kernel/src/expr.rs:1023-1037 | the loop returns the literal opening, or none |
| LikeLaws.QuotedIsItself | crates/slate-kernel/src/expr.rs:942-1014 | a text with its special characters behind backslashes matches itself and nothing else |
| LikeLaws.StartsIff | crates/slate-kernel/src/expr.rs:942-1014 | a quoted text and `%` match exactly what starts with it |
| LikeLaws.EndsIff | crates/slate-kernel/src/expr.rs:942-1014 | `%` and a quoted text match exactly what ends with it |
| LikeLaws.HoldsIff | crates/slate-kernel/src/expr.rs:942-1014 | a quoted text between two `%` matches exactly what holds it |
| LikeLaws.BlanksCount | crates/slate-kernel/src/expr.rs:942-1014 | so many `_` match exactly the texts of so many characters |
| LikePatterns.LiteralOpensBytes | crates/slate-kernel/src/expr.rs:1016-1037 | every text that matches starts with it, byte by byte |
| LikePatterns.SpelledChars | crates/slate-kernel/src/expr.rs:953-955 | a text is its characters joined |
| Exprs.AllAdmit | crates/slate-kernel/src/expr.rs:679-689 | a conjunction admits a row exactly when every part does |
| Exprs.AnyAdmits | crates/slate-kernel/src/expr.rs:690-700 | a disjunction exactly when some part does |
| ThreeValued.AllAnswers | crates/slate-kernel/src/expr.rs:679-689 | a conjunction is false exactly if some part is, and failing that unknown exactly if some part is |
| ThreeValued.AnyAnswers | crates/slate-kernel/src/expr.rs:690-700 | a disjunction is true exactly if some part is, and failing that unknown exactly if some part is |
| ThreeValued.Conjoin | crates/slate-kernel/src/expr.rs:679-689 | the loop that stops at the first false part answers as the conjunction |
| ThreeValued.Disjoin | crates/slate-kernel/src/expr.rs:690-700 | the loop that stops at the first true part answers as the disjunction |
| ThreeValued.DeMorgan | crates/slate-kernel/src/expr.rs:679-701 | both laws as equalities of truth values; a negated conjunction admits a row exactly if some part is false |
| ThreeValued.NotNot | crates/slate-kernel/src/expr.rs:82-95 | a negation is true exactly of false and unknown of unknown |
| ThreeValued.ComparisonLaws | crates/slate-kernel/src/expr.rs:552-600 | a negated comparison is the opposite one, two columns compare alike from either side, a null alone is unknown, and `<=` and `>=` are disjunctions |
| ThreeValued.NullIsUnknown | crates/slate-kernel/src/expr.rs:552-678 | every test of a null but `IS NULL` is unknown |
| ThreeValued.NegatedTests | crates/slate-kernel/src/expr.rs:552-642 | `NOT LIKE` and `IS NOT NULL` answer as the negations |
| ThreeValued.InIsAny | crates/slate-kernel/src/expr.rs:643-678 | `IN` is the disjunction of its equations exactly unless the list is empty and the value null; `NOT IN` admits exactly a value that differs from every candidate, none of them null |
| Exprs.SearchedIff | crates/slate-kernel/src/expr.rs:643-661 | on a sorted list the binary search finds what a scan finds |
| Exprs.DistinctSorted | crates/slate-kernel/src/expr.rs:798-822 | sorting and removing duplicates leaves a strictly ascending list |
| Exprs.PreparedSame | crates/slate-kernel/src/expr.rs:784-822 | the prepared predicate answers the same on every row, unknown included |
| Implication.ConjunctsHold | crates/slate-kernel/src/expr.rs:527-540 | a row is admitted exactly when every conjunct admits it |
| Implication.SameExprAgree | crates/slate-kernel/src/plan.rs:1456-1458 | expressions that are equal up to equal literals answer alike |
| Implication.ComparisonImpliesIff | crates/slate-kernel/src/plan.rs:1538-1563 | the table of bounds holds exactly where the order forces the goal, `<>` apart |
| Implication.ExcludesNullsSound | crates/slate-kernel/src/plan.rs:1588-1622 | a row admitted by such a predicate has a value in the column |
| Implication.ImpliesOneSound | crates/slate-kernel/src/plan.rs:1455-1482 | one goal established is a goal met by every admitted row |
| Implication.ImpliesSound | crates/slate-kernel/src/plan.rs:1394-1452 | when `implies` says yes, every row the query admits is in the partial index |
| KeyRanges.IntersectExact | crates/slate-kernel/src/store.rs:66-77 | the intersection holds exactly the keys both hold |
| KeyRanges.EmptyHoldsNothing | crates/slate-kernel/src/store.rs:96-105 | a range called empty holds no key |
| KeyRanges.IsEmptyIff | crates/slate-kernel/src/store.rs:95-105 | and one that holds none is called so, but for hidden gaps |
| KeyRanges.BelowPrefixEnd | crates/slate-kernel/src/store.rs:52-57 | under a prefix's end is below the prefix or beginning with it |
| Bounds.CollectConstraints | crates/slate-kernel/src/plan.rs:915-990 | the loop collects what each conjunct adds |
| Bounds.AdmittedMeets | crates/slate-kernel/src/plan.rs:915-990 | an admitted row meets every constraint taken from the predicate |
| Bounds.RetainedAdmits | crates/slate-kernel/src/plan.rs:915-990 | and the other way: a row that meets them is admitted by each range comparison, by the last equality and by the first `IN` of each column |
| Bounds.BoundExact | crates/slate-kernel/src/plan.rs:1077-1113 | the range of a comparison holds exactly the keys whose value satisfies it, ascending or descending; with a literal that does not fit, what is written of it |
| Bounds.LosesNoneIff | crates/slate-kernel/src/plan.rs:1079-1109 | for each operator, exactly which literals make a bound that loses no value: `>` and `>=` all, `<` those that fit, `<=` those and vectors of which only NaNs are written |
| KeyMatch.MatchKey | crates/slate-kernel/src/plan.rs:1007-1075 | the loops compute the specified range |
| KeyMatch.PinnedExact | crates/slate-kernel/src/plan.rs:1017-1028 | a key begins with the equality prefix exactly when the row holds the pinned values as they are written, for any literals |
| KeyMatch.MatchedExact | crates/slate-kernel/src/plan.rs:1002-1075 | for any literals, the range holds a row's key exactly when the row has the pinned values and meets the bound after them, as written |
| KeyMatch.AdmittedInIff | crates/slate-kernel/src/plan.rs:1002-1075 | an admitted row's key is in the range exactly when its value after the equality prefix meets the bounds there as they are written |
| KeyMatch.NoRowLost | crates/slate-kernel/src/plan.rs:1-17 | no admitted row's key is outside the range: for any literals where the key holds no vector or array, and for harmless ones where it does |
| InRanges.SplitIn | crates/slate-kernel/src/plan.rs:1875-1944 | the loop and the sort compute the specified ranges |
| InRanges.SomeRangeHolds | crates/slate-kernel/src/plan.rs:1863-1944 | every row that meets the constraints is in one of the ranges of an `IN` |
| InRanges.NoKeyTwice | crates/slate-kernel/src/plan.rs:1898-1903 | some key is in two of them exactly when the two values share their bytes, and then one of them does not fit |
| InRanges.NoRowTwice | crates/slate-kernel/src/plan.rs:1898-1903 | no row with a keyable value in that column is in two, for any candidates |
| InRanges.RowReadTwice | crates/slate-kernel/src/plan.rs:1875-1944 | with a value that does not fit and what is written of it, an admitted row is in both ranges |
| InRanges.ScansInOrder | crates/slate-kernel/src/plan.rs:1938-1943 | the sorted ranges of values whose bytes differ hold their keys in order, so rows come back in key order across all of them |
| InRanges.ValueMeetsOthers | crates/slate-kernel/src/plan.rs:1946-1969 | a dropped value is one no admitted row holds |
| Plans.PrimaryReaches | crates/slate-kernel/src/plan.rs:1115-1151 | the primary-key access comes upon every admitted row |
| Plans.PointGetsReach | crates/slate-kernel/src/plan.rs:1180-1235 | so does a set of point reads, whatever the literals |
| Plans.PointGetsInOrder | crates/slate-kernel/src/plan.rs:1229-1234 | point reads compare as their keys do as written, and ascend where those fit |
| Plans.PointGetsReadOnce | crates/slate-kernel/src/plan.rs:1229-1234 | no row with a keyable primary key is at two of them, for any candidates |
| Plans.IndexReaches | crates/slate-kernel/src/plan.rs:1739-1862 | so does an index, partial or not, one range or several |
| Plans.IndexScansReadOnce | crates/slate-kernel/src/plan.rs:1863-1944 | through several ranges a row comes back once, for any candidates, if its value in the column that is split on is keyable |
| Plans.CollapsedReaches | crates/slate-kernel/src/plan.rs:875-896 | reading nothing instead of an empty range changes nothing |
| Plans.UnsatisfiableAdmitsNone | crates/slate-kernel/src/plan.rs:683-689 | a predicate called unsatisfiable admits no row |
| Plans.NullComparisonReadsNothing | crates/slate-kernel/src/plan.rs:683-689 | a predicate with a comparison with null among its conjuncts reads nothing |
| Plans.PlanReaches | crates/slate-kernel/src/plan.rs:672-896 | whatever access is settled on comes upon every admitted row |
| Plans.PlanExact | crates/slate-kernel/src/plan.rs:1-29 | read and passed by the residual, a row is returned exactly when the predicate admits it: for any literals where no key holds a vector or an array, and for harmless ones where a computed one does |
| Plans.SchemaKeeps | crates/slate-schema/src/table.rs:1767-1786 | a row the schema lets in is such a row, if the range comparisons with computed vectors and arrays are harmless |
| Plans.LongLiteralLosesRow | crates/slate-kernel/src/plan.rs:1770-1794 | an index over a computed vector or array, `<` and any literal that does not fit: the scan of it, which the planner may settle on, misses an admitted row |
| Records.SharedSlot | crates/slate-kernel/src/record.rs:2838-2845 | rows share an entry key only where the entry's value tells them apart |
| Records.SlotsDistinct | crates/slate-kernel/src/record.rs:2838-2867 | in an index in step, no two rows share an entry |
| Records.CheckIffFree | crates/slate-kernel/src/record.rs:2846-2863 | the uniqueness check refuses exactly when another row holds the slot |
| Records.StepKeeps | crates/slate-kernel/src/record.rs:2782-2830 | with the slot free, one index is in step after the write |
| Records.StepTears | crates/slate-kernel/src/record.rs:2816-2829 | an index written for a row that is not stored is out of step unless its entry did not change |
| Records.RefusalTears | crates/slate-kernel/src/record.rs:2816-2827 | a refused step has already deleted the row's old entry |
| Transactions.Transaction.WriteRow | crates/slate-kernel/src/record.rs:2766-2837 | the loop over the indexes, then the row: stored at its key if every index took it, and no row touched otherwise |
| Transactions.Transaction.EraseRow | crates/slate-kernel/src/record.rs:2441-2452 | the entries of the indexes that hold the row, then the row, and no other row |
| Transactions.CheckedWrite | crates/slate-kernel/src/record.rs:2760-2837 | succeeds exactly when every slot is free; then the row is at its key, every other row as it was and every index in step; else no row is touched |
| Transactions.RefusedWrite | crates/slate-kernel/src/record.rs:499-513 | leaves the transaction as it was, and in step, exactly when nothing was to be written before the refusal |
| Transactions.UncheckedWrite | crates/slate-kernel/src/record.rs:2415-2430 | stores the row, and keeps every index in step exactly when every slot is free |
| Transactions.RefusedIff | crates/slate-kernel/src/record.rs:2838-2863 | a checked write is refused exactly when another stored row is in a unique index with it, with equal values, none of them null, of one tenant |
| Transactions.EraseKeeps | crates/slate-kernel/src/record.rs:2434-2452 | erasing takes the row and its entries and nobody else's |
| Transactions.RunIsConsistent | crates/slate-kernel/src/record.rs:2760-2837 | after any run of statements, refused ones rolled back, every index is in step |
| Transactions.RunRows | crates/slate-kernel/src/record.rs:2760-2837 | the rows a run leaves are those of a table without indexes and with that rule |
| Transactions.StoredIff | crates/slate-kernel/src/record.rs:2832-2836 | a row is at a key after a run exactly if an accepted put put it there and no later statement removed it or put another |
| Transactions.UniqueHolds | crates/slate-kernel/src/record.rs:2838-2845 | rows that share a unique index's values and tenant are one row |
| Transactions.EntryLeadsToOne | crates/slate-kernel/src/keys.rs:224-275 | every stored entry, decoded, names one stored row, the one it was written for |
| Transactions.MetIffReached | crates/slate-kernel/src/read.rs:1326-1333 | walking an index, decoding each entry in the range and following its key, comes to just the rows the access reaches |
| Transactions.ReturnedIffReached | crates/slate-kernel/src/plan.rs:84-160 | so for every kind of access: point reads, scans of the table, one range of an index or several |
| Transactions.QueryAnswers | crates/slate-kernel/src/plan.rs:1-29 | whatever access a query is planned with, reading the store that writes left and filtering returns exactly the stored rows the predicate admits, whatever the literals on columns are |
| Transactions.RunAnswers | crates/slate-kernel/src/plan.rs:1-29 | after any run of statements a planned query returns exactly the rows that the table without indexes holds and the predicate admits |
| Transactions.ReadOnce | crates/slate-kernel/src/plan.rs:1898-1903 | no stored row is come to by two point reads or two ranges, for any candidates, computed vectors and arrays apart |
| TornWrite.RefusedUpdateTears | crates/slate-kernel/src/record.rs:2816-2827 | an update refused by a unique index that leaves its row without an entry |
| RetiredWrite.RetiredRowTears | crates/slate-kernel/src/record.rs:2423-2430 | soft deletes that leave one entry for two rows: a partial index of retired rows, and an index of the retirement itself |
| Lease.Reachable | crates/slate-server/src/lease.rs:550-688 | what every step of every client keeps, with each request sent, landed and published apart and step-downs at any moment |
| Lease.GenerationsOrderTerms | crates/slate-server/src/lease.rs:76-83 | in every run a later acquisition has the higher generation exactly while the counter can rise |
| Lease.LeadersAreOrdered | crates/slate-server/src/lease.rs:24-28 | in every run, two nodes that both believe they lead hold different generations, or the last there is |
| Lease.ContestedOnce | crates/slate-server/src/lease.rs:585-688 | in every run, a write that lands is over what was read, once per version, over one's own or an expired term; renewals and releases touch only one's own |
| Lease.SteppedDownIsFinalIff | crates/slate-server/src/leadership.rs:233-362 | in every run, a step-down is final exactly when no campaign, no renewal that would land and no unpublished answer of the node's is in flight |
| Lease.StepStaysDown | crates/slate-server/src/leadership.rs:344-362 | such a node's only write is its release |
| LeaseAnswers.PublishAnswers | crates/slate-server/src/leadership.rs:233-325 | a term makes a leader of it, a lost campaign a follower, and a lost lease a node stepped down, with its release to come unless it was already |
| LeaseAnswers.AnswerPublished | crates/slate-server/src/leadership.rs:233-325 | in every run an answer makes that standing when it is published, whatever happens before |
| LeaseAnswers.LandAnswers | crates/slate-server/src/lease.rs:585-653 | what a conditional write leaves in the store, what the client then holds, and what it is told |
| LeaseAnswers.LostRenewalEndsLead | crates/slate-server/src/leadership.rs:304-325 | in every run a renewal heard to be refused and then published leaves its node stepped down, holding nothing |
| LeaseAnswers.NothingHeldEndsLead | crates/slate-server/src/leadership.rs:304-325 | so does a renewal of a lease no longer held |
| LeaseAnswers.FailedRenewalKeepsLead | crates/slate-server/src/leadership.rs:317-323 | a renewal that fails on the way leaves standing and lease as they were |
| LeaseAnswers.StepDownStops | crates/slate-server/src/leadership.rs:344-362 | stepping down takes the standing at once and leaves the release to come |
| LeaseAnswers.ReleaseHandsOver | crates/slate-server/src/leadership.rs:350-361 | in every run, after a release that lands any node with a clock not behind takes the lease at once, under the next generation |
| LeaseAnswers.RunningTermStands | crates/slate-server/src/lease.rs:550-592 | a campaign against another's running term writes nothing and follows |
| Lease.FencedLeaderComesBack | crates/slate-server/src/leadership.rs:304-311 | a run in which a fenced leader's renewal lands and makes it leader again, of a released lease |
| Lease.TwoLeadersPossible | crates/slate-server/src/lease.rs:15-22 | the lease does not promise mutual exclusion |
| Lease.SaturatedRepeats | crates/slate-server/src/lease.rs:593-600 | a run in which two acquisitions share the last generation |
| Struck.KeptIsPieces | scripts/check_cost_prose.py:393-432 | the kept text by parity of the markers, and at most one marker after the pairing pass |
| Struck.KeptExactIff | scripts/check_cost_prose.py:393-432 | the kept text is all of the live text exactly when the chunk starts outside a span or has at most one marker |
| Struck.LiveTextLost | scripts/check_cost_prose.py:393-432 | the smallest loss otherwise |
| Struck.FlagIsParity | scripts/check_cost_prose.py:555-591 | the carried flag is the parity of every marker before |
| Struck.FileRefines | scripts/check_cost_prose.py:555-591 | chunk by chunk, what is kept is live in the whole file |
| Excuses.UndeservedOnceIff | scripts/check_cost_prose.py:555-591 | a marker is reported once exactly when it excuses nothing, and never else |
| Excuses.JudgedOnceIff | scripts/check_cost_prose.py:555-591 | a chunk's live text is checked once unless a marker on it or alone above it excuses it |
| CostMarkers.ReadChunk | scripts/check_cost_prose.py:555-591 | one turn of the loop, with `excused` and `pending` set together |
| CostMarkers.CheckFile | scripts/check_cost_prose.py:555-662 | the carried flags come to what the positions of the chunks give |
| CostMarkers.LiveWords | scripts/check_cost_prose.py:396-428 | what is live of a chunk is the words of what it keeps, one space apart |
| Text.JoinedAppend | scripts/check_cost_prose.py:344 | joining puts one space between each two parts |
| Chunking.Paragraphs | scripts/check_cost_prose.py:320-346 | the lines are tiled in order, each maximal comment run one chunk |
| Chunking.ParagraphsUnique | scripts/check_cost_prose.py:320-346 | there is one such cut |
| Chunking.LineInOneChunk | scripts/check_cost_prose.py:320-346 | each line is in one chunk and no other |
| Chunking.Prose | scripts/check_cost_prose.py:349-390 | every prose line is in one chunk, in order, but for the run an unclosed fence swallows |
| Chunking.UnflushedIff | scripts/check_cost_prose.py:349-390 | what is lost is the run directly above the open fence, if there is one |
| Caveats.FrameOf | scripts/caveats.py:651-685 | the frame, in order |
| Caveats.UncheckedOf | scripts/caveats.py:580-648 | the rows nobody has read since the cutoff, in order |
| Caveats.UncheckedIsFrame | scripts/caveats.py:580-685 | without a cutoff the two listings are one |
| Caveats.UncheckedMonotone | scripts/caveats.py:580-648 | a shorter memory lists more, and every cutoff lists the never read |
| Caveats.UncheckedIff | scripts/caveats.py:580-648 | a cutoff leaves out of the bucket exactly the rows that give a day no earlier than it |
| Caveats.PartitionCount | scripts/caveats.py:651-685 | frame and read rows make up the bucket |
| Caveats.Report | scripts/caveats.py:391-489 | each count is the number of caveats with that verdict, and they sum to the caveats found |
| Caveats.ReadFigure | scripts/caveats.py:822-828 | the printed figure counts the read rows |
| Draws.Tracker.Draw | scripts/caveats.py:688-735 | refused when the frame is too small or the seed taken, else one record more, which lists index by index the rows of the frame before the draw |
| Draws.Tracker.StampRow | scripts/caveats.py:759-782 | a row is stamped with the draw that named it |
| Draws.PassesPool | scripts/caveats.py:651-735 | over any run: one bucket, a frame that only shrinks, no read row drawn again |
| Draws.ReachableInvariant | scripts/caveats.py:688-782 | every record and stamp of a run is sound |
| Draws.DrawnFromFrame | scripts/caveats.py:688-735 | each record of a run lists, index by index, the rows of the frame as it stood when it was drawn |
| Draws.KeysDistinct | scripts/caveats.py:688-735 | and no row twice, where no caveat is found twice |
| Draws.StampReads | scripts/caveats.py:759-782 | a stamped row is read, under that draw and date, and leaves the frame; every other row stands |
| CheckDraws.Problems | scripts/check_draws.py:72-173 | raises on an oversized record, else reports nothing exactly when clean |
| CheckDraws.CleanMeans | scripts/check_draws.py:72-173 | clean means each read row names a record that lists it, and that repeats its sample with a key an index, or is a recovery in time with its evidence |
| CheckDraws.FlagSeeds | scripts/check_draws.py:83-112 | a boolean seeds as one or zero, and is printed as a word |
| CheckDraws.ReachableIsClean | scripts/check_draws.py:72-173 | what draws and stamps leave is clean |
| Tables.FindTables | scripts/check_table_provenance.py:128-157 | the nested cursor finds the specified tables |
| Tables.FirstHeaderOfRun | scripts/check_table_provenance.py:128-157 | a table starts at the first header of its run and nowhere else |
| Tables.FencedIff | scripts/check_table_provenance.py:128-157 | a line is in a fence exactly if an odd number of fence lines stands above it |
| Tables.TablesOrdered | scripts/check_table_provenance.py:128-157 | tables are in order and apart |
| Tables.FindStamp | scripts/check_table_provenance.py:174-190 | the scan upwards answers whether the table is stamped |
| Tables.StampedIff | scripts/check_table_provenance.py:174-190 | a stamp counts from the nearest heading down |
| Tables.ExcusedIff | scripts/check_table_provenance.py:191-194 | an excuse counts exactly on one of the three lines above the table |
| Provenance.Scan | scripts/check_table_provenance.py:210-230 | each mark is a table's and each table is marked |
| Provenance.DigestsAreBare | scripts/check_table_provenance.py:174-230 | the digests asked for are those of the measured tables with no build line in their section and no excuse in the three lines above |
| Provenance.Check | scripts/check_table_provenance.py:210-261 | reports exactly the bare tables the roster does not hold and the entries of no bare table, with the counts of both kinds of table; nothing exactly when the roster is their digests |
| Provenance.Freeze | scripts/check_table_provenance.py:264-318 | one entry for each bare digest |
| Provenance.FreezeThenCheck | scripts/check_table_provenance.py:210-318 | freezing, sorting, loading and checking reports nothing |
| WasmRuntime.Closure | scripts/check_wasm_runtime.py:118-128 | the worklist ends and returns exactly the reachable crates |
| WasmRuntime.CheckReached | scripts/check_wasm_runtime.py:163-193 | clean exactly when every crate reached is portable |
| WasmRuntime.CheckOutside | scripts/check_wasm_runtime.py:194-223 | clean exactly when the explanations are of the crates left out that need one |
| WasmRuntime.CheckRuntime | scripts/check_wasm_runtime.py:163-223 | the whole run in terms of reachability: no crate reached takes the defaults or a feature wasm lacks, and the explanations are those needed |
| CitedFiles.Tracked | scripts/check_cited_files.py:135-167 | the index is the filter: a tracked path is itself alone, anything else every file it is the tail of |
| CitedFiles.TailIsJoin | scripts/check_cited_files.py:162-164 | every tail of a path is one of its joins |
| CitedFiles.CheckCitations | scripts/check_cited_files.py:235-273 | clean exactly when every citation resolves to files with the same bytes and every external path is cited and does not |
| NoneLast.OutermostOffender | scripts/check_none_last.py:84-132 | from any offender the climb ends at one that is reported |
| NoneLast.WalkMeetsAll | scripts/check_none_last.py:108-110 | the walk meets every node |
| NoneLast.IsNested | scripts/check_none_last.py:121-131 | the search of the whole tree finds just the parent |
| NoneLast.Offenders | scripts/check_none_last.py:98-118 | reports exactly the outermost offenders, and one exactly when any union offends |
| NoneLast.RightArmReported | scripts/check_none_last.py:112-117 | a right arm is reported exactly when it offends, and then its union offends too and is reported unless it is a left arm |
| LiveFrame.CheckFrame | scripts/check_live_frame.py:101-154 | reports just what is wrong, from either end |
| LiveFrame.AboutIff | scripts/check_live_frame.py:117-122 | a roster row is about a caveat of its entry exactly if the two texts agree letter by letter as far as both go |
| LiveFrame.OneEachIffPairing | scripts/check_live_frame.py:111-150 | exactly one from each end is a bijection, and the counts agree |
| LiveFrame.CleanIff | scripts/check_live_frame.py:101-154 | clean exactly when none is open, the roster pairs off with the narrowed rows and every row has a reason |
| LiveFrame.SharedReasonReported | scripts/check_live_frame.py:138-150 | a prefix that covers two caveats is reported whatever else the roster holds |
| RetiredClaims.Normalize | scripts/check_retired_claims.py:156-174 | the two lists are those of the words in order |
| RetiredClaims.RewrapIff | scripts/check_retired_claims.py:156-174 | flat texts are equal exactly when the words are |
| RetiredClaims.WordAt | scripts/check_retired_claims.py:156-174 | each character of a word is sent to the word's line |
| RetiredClaims.MapShape | scripts/check_retired_claims.py:156-174 | the map is as long as the text, never goes back and stays in the file |
| RetiredSearch.SpanShape | scripts/check_retired_claims.py:190-192 | a struck span is a marker and the nearest other with something between |
| RetiredSearch.SpansMissNone | scripts/check_retired_claims.py:190-192 | two such markers always meet a span |
| RetiredSearch.IsExempt | scripts/check_retired_claims.py:181-200 | the loops answer the exemption, no index out of bounds |
| RetiredSearch.ExemptWider | scripts/check_retired_claims.py:181-200 | the code exempts what the prose does and what has a mark below that |
| RetiredSearch.AsDescribedIff | scripts/check_retired_claims.py:181-200 | they agree however the lines are marked exactly when the next word is on the claim's last line, or the file ends, or the claim is struck |
| RetiredSearch.CheckPhrase | scripts/check_retired_claims.py:264-277 | the search loop ends and reports what looking at each position reports, overlaps included |
| RetiredSearch.ScanMember | scripts/check_retired_claims.py:264-277 | each occurrence is exempt or reported with its line |
| RetiredSearch.ScanAscends | scripts/check_retired_claims.py:264-277 | and none twice |
| RetiredSearch.CheckFile | scripts/check_retired_claims.py:255-277 | the body of the loop over files |
| RetiredSearch.ReportedLine | scripts/check_retired_claims.py:258-270 | the line named is never above the claim's, and is below it exactly when a later line begins between the claim and the position it is reported at |
| RetiredSearch.SamePlaceIff | scripts/check_retired_claims.py:258-268 | a position of the lowered text is that of the text exactly when no such letter stands before it |
| RetiredSearch.ClaimPlaceIff | scripts/check_retired_claims.py:258-264 | the exemption is asked for the claim's own place exactly when no such letter stands before the claim's last character |
| RetiredSearch.ShiftHarmlessIff | scripts/check_retired_claims.py:258-264 | asking for another place answers alike for all markings exactly when both are struck, or neither is and the same lines are near |
| RetiredSearch.LineTooLow | scripts/check_retired_claims.py:258-270 | a claim reported on the line below its own |
| RetiredSearch.LiveClaimExempted | scripts/check_retired_claims.py:190-192 | a live claim exempted because it is looked for where a struck one stands |
| RetiredSearch.StruckClaimReported | scripts/check_retired_claims.py:190-192 | a struck claim not exempted, by the same shift |
| Handlers.ImplCatalogAccessors | scripts/check_handlers.py:747-793 | the loop over lines is the fold |
| Handlers.OutsideHasNoSignature | scripts/check_handlers.py:747-793 | outside a block no signature is open |
| Handlers.HandsOutIff | scripts/check_handlers.py:778-792 | a signature hands out a table exactly if the word stands behind its first arrow |
| Handlers.Compositional | scripts/check_handlers.py:747-793 | a file cut outside a block can be read in parts |
| Handlers.BodyFound | scripts/check_handlers.py:778-792 | in a block the fold finds what reading signature by signature finds |
| Handlers.EveryBlockFound | scripts/check_handlers.py:766-776 | the methods of every block are found, and nothing else |
| ClosedCaveats.Check | scripts/check_closed_caveats.py:2916-2998 | all eight checks pass exactly when the closed rows are the roster and each row alone holds |

## Left out

- The planner's costs, statistics, sorting and covering scans: `Plans.Planned` takes any access they could choose.
- Inverted text indexes, whose rows have many entries, and joins, grouping, windows and paging.
- `str::to_lowercase`, the `regex` crate and the tokenizer: which texts pass is given.
- Row bodies, foreign keys, `CHECK`, policies and grants, soft delete's clock, and the bulk write path apart from its unchecked writes.
- A store write that fails and poisons its transaction; commit and its conflicts.
- Transactions.RunIsConsistent: states the invariant for statements that are rolled back when refused; what a caller gets who goes on instead is `RefusedWrite`.
- Plans.PlanExact: leaves out the rows that a range comparison with an over-long computed vector or array loses; which rows those are is `AdmittedInIff`, and for which literals there are any `LosesNoneIff`.
- KeyMatch.NoRowLost: leaves out the same rows.
- Transactions.QueryAnswers: leaves out the same rows.
- Transactions.ReadOnce: leaves out the rows that two candidates of an `IN` share over a computed vector or array; which candidates those are is `NoKeyTwice`.
- The text of the lease object and its decoder, the capability probe, the loops `maintain` and `follow`, and liveness of the election; `maintain` is taken to be the one task of a node that campaigns and renews.
- Decimal parsing and printing, and schema names for types.
- Untrusted decoding as a resource question: lengths are compared with the buffer, memory is not modelled.
- The line patterns of the scripts, number words, the text of messages, file walking, `git`, exit codes.
- check_cost_prose: which sentence is a claim, and the comparison of its number with the measured one.
- check_draws: the rules about one field each, beyond those that make a record or a stamp sound.
- check_handlers: `enclosing_functions`, the `REACH` window, the `seen` set its rosters share and the other rules.
- check_retired_claims: the hygiene rules of the registry, and lower case of a final sigma, which depends on the letters around it.
- check_closed_caveats: how a witness is looked for in the tree.
- The guards with one condition each: versions, proto copies, transport door, client identity, prebuilt packages, handoff.
