/** The provenance roster: `check` and `freeze`, written apart, agree. */
module Provenance {
  import opened Tables

  /** A table as the two passes see it: where, whether it records a measurement, whether a stamp
      or an excuse covers it, and its content digest. */
  datatype Mark = Mark(file: string, start: nat, measured: bool, covered: bool, digest: string)

  /** What tells a measurement and fingerprints a table body; both are arbitrary here. */
  datatype Judge = Judge(measured: seq<Line> -> bool, digest: seq<Line> -> string)

  datatype Document = Document(file: string, lines: seq<Line>)

  function MarkOf(d: Document, t: Table, judge: Judge): Mark
    requires 1 <= t.start <= t.end <= |d.lines|
  {
    var body := d.lines[t.start - 1..t.end];
    Mark(d.file, t.start, judge.measured(body), Stamped(d.lines, t.start - 1) || Excused(d.lines, t.start), judge.digest(body))
  }

  ghost predicate IsMark(m: Mark, d: Document, t: Table, judge: Judge) {
    t in TablesIn(d.lines, |d.lines|) && 1 <= t.start <= t.end <= |d.lines| && m == MarkOf(d, t, judge)
  }

  /** Every table of the tree, page after page: each mark is a table's and each table is marked. */
  method Scan(docs: seq<Document>, judge: Judge) returns (marks: seq<Mark>)
    requires forall k | 0 <= k < |docs| :: Page(docs[k].lines)
    ensures MarksOf(docs, judge, marks)
  {
    marks := [];
    for i := 0 to |docs|
      invariant forall m | m in marks :: exists d, t :: d in docs && IsMark(m, d, t, judge)
      invariant forall d, t | d in docs[..i] && t in TablesIn(d.lines, |d.lines|) :: exists m :: m in marks && IsMark(m, d, t, judge)
    {
      var d := docs[i];
      var ts := FindTables(d.lines);
      TablesInPage(d.lines, |d.lines|);
      hide MarkOf, TablesIn;
      ghost var before := marks;
      for j := 0 to |ts|
        invariant forall m | m in before :: m in marks
        invariant forall m | m in marks :: m in before || exists t :: IsMark(m, d, t, judge)
        invariant forall t | t in ts[..j] :: exists m :: m in marks && IsMark(m, d, t, judge)
      {
        var m := MarkOf(d, ts[j], judge);
        assert IsMark(m, d, ts[j], judge);
        marks := marks + [m];
        assert m in marks;
        assert ts[..j + 1] == ts[..j] + [ts[j]];
      }
      assert ts[..|ts|] == ts;
      assert docs[..i + 1] == docs[..i] + [d];
    }
    assert docs[..|docs|] == docs;
  }

  lemma {:induction false} TablesInPage(lines: seq<Line>, n: nat)
    requires n <= |lines|
    ensures forall t | t in TablesIn(lines, n) :: 1 <= t.start <= t.end <= |lines|
  {
    if n > 0 { TablesInPage(lines, n - 1); }
  }

  // ----- The reference

  predicate Bare(m: Mark) { m.measured && !m.covered }

  /** The digests of the measurement tables nothing covers. */
  function BareDigests(marks: seq<Mark>, n: nat): set<string>
    requires n <= |marks|
  {
    if n == 0 then {} else BareDigests(marks, n - 1) + if Bare(marks[n - 1]) then {marks[n - 1].digest} else {}
  }

  function Digests(marks: seq<Mark>): set<string> { BareDigests(marks, |marks|) }

  // ----- Which tables are bare

  /** What `Scan` returns of a tree. */
  ghost predicate MarksOf(docs: seq<Document>, judge: Judge, marks: seq<Mark>) {
    && (forall m | m in marks :: exists d, t :: d in docs && IsMark(m, d, t, judge))
    && (forall d, t | d in docs && t in TablesIn(d.lines, |d.lines|) :: exists m :: m in marks && IsMark(m, d, t, judge))
  }

  /** No build line stands above the table below the nearest heading. */
  ghost predicate Unstamped(lines: seq<Line>, k: nat)
    requires k <= |lines|
  {
    forall b | 0 <= b < k && lines[b].build :: exists h | b <= h < k :: lines[h].heading
  }

  /** A table that starts at line `k`, records a measurement under that digest, and has neither a stamp in
      its section nor an excuse in the three lines above it. */
  ghost predicate BareTable(d: Document, k: nat, judge: Judge, digest: string) {
    && k < |d.lines| && Starts(d.lines, k)
    && judge.measured(d.lines[k..RunEnd(d.lines, k)]) && judge.digest(d.lines[k..RunEnd(d.lines, k)]) == digest
    && Unstamped(d.lines, k)
    && !ExcuseAt(d.lines, k + 1, 1) && !ExcuseAt(d.lines, k + 1, 2) && !ExcuseAt(d.lines, k + 1, 3)
  }

  lemma {:induction false} UnstampedIff(lines: seq<Line>, k: nat)
    requires k <= |lines|
    ensures Unstamped(lines, k) <==> !Stamped(lines, k)
  {
    StampedIff(lines, k);
    hide Stamped;
    if !Unstamped(lines, k) {
      var b :| 0 <= b < k && lines[b].build && !exists h | b <= h < k :: lines[h].heading;
      assert lines[b].build && forall j | b <= j < k :: !lines[j].heading;
    }
  }

  lemma {:induction false} TableStarts(lines: seq<Line>, n: nat, t: Table)
    requires n <= |lines|
    ensures t in TablesIn(lines, n) <==> 1 <= t.start <= n && Starts(lines, t.start - 1) && t.end == RunEnd(lines, t.start - 1)
  {
    hide Starts, RunEnd;
    if n > 0 { TableStarts(lines, n - 1, t); }
  }

  lemma {:induction false} BareIff(m: Mark, d: Document, t: Table, judge: Judge)
    requires IsMark(m, d, t, judge)
    ensures Bare(m) <==> BareTable(d, t.start - 1, judge, m.digest)
    ensures m.start == t.start && m.file == d.file
  {
    TableStarts(d.lines, |d.lines|, t);
    UnstampedIff(d.lines, t.start - 1);
    ExcusedIff(d.lines, t.start);
    hide TablesIn, Starts, Stamped, Unstamped, RunEnd, Excused, ExcuseAt;
  }

  lemma {:induction false} BareMember(marks: seq<Mark>, n: nat, x: string)
    requires n <= |marks|
    ensures x in BareDigests(marks, n) <==> exists i | 0 <= i < n :: Bare(marks[i]) && marks[i].digest == x
  {
    hide Bare;
    if n > 0 { BareMember(marks, n - 1, x); }
  }

  lemma {:induction false} MarkIsBare(docs: seq<Document>, judge: Judge, marks: seq<Mark>, m: Mark)
    requires MarksOf(docs, judge, marks) && m in marks && Bare(m)
    ensures exists d: Document, k: nat :: d in docs && BareTable(d, k, judge, m.digest)
  {
    hide Bare, TablesIn, BareTable, IsMark;
    var d, t :| d in docs && IsMark(m, d, t, judge);
    MarkHasPlace(m, d, t, judge);
    BareIff(m, d, t, judge);
  }

  lemma {:induction false} MarkHasPlace(m: Mark, d: Document, t: Table, judge: Judge)
    requires IsMark(m, d, t, judge)
    ensures 1 <= t.start
  {
  }

  lemma {:induction false} BareIsMarked(docs: seq<Document>, judge: Judge, marks: seq<Mark>, d: Document, k: nat, x: string)
    requires MarksOf(docs, judge, marks) && d in docs && BareTable(d, k, judge, x)
    ensures exists m :: m in marks && Bare(m) && m.digest == x
  {
    var t := Table(k + 1, RunEnd(d.lines, k));
    TableStarts(d.lines, |d.lines|, t);
    hide TablesIn, Starts, RunEnd, Unstamped, ExcuseAt, Stamped, Excused, Bare;
    var m :| m in marks && IsMark(m, d, t, judge);
    BareIff(m, d, t, judge);
    assert m.digest == x;
  }

  /** The digests the roster must hold are those of the bare tables of the tree, told by their lines. */
  lemma {:induction false} DigestsAreBare(docs: seq<Document>, judge: Judge, marks: seq<Mark>, x: string)
    requires MarksOf(docs, judge, marks)
    ensures x in Digests(marks) <==> exists d: Document, k: nat :: d in docs && BareTable(d, k, judge, x)
  {
    BareMember(marks, |marks|, x);
    hide BareDigests, Bare, MarksOf, BareTable;
    if x in Digests(marks) {
      var i :| 0 <= i < |marks| && Bare(marks[i]) && marks[i].digest == x;
      MarkIsBare(docs, judge, marks, marks[i]);
    }
    if d: Document, k: nat :| d in docs && BareTable(d, k, judge, x) {
      BareIsMarked(docs, judge, marks, d, k, x);
      var m :| m in marks && Bare(m) && m.digest == x;
      var i :| 0 <= i < |marks| && marks[i] == m;
    }
  }

  type Roster = map<string, string>

  datatype Problem = Unrecorded(file: string, start: nat) | Outlived(digest: string)

  predicate Held(m: Mark, roster: Roster) { Bare(m) && m.digest in roster }

  function Covered(marks: seq<Mark>, n: nat, roster: Roster): nat
    requires n <= |marks|
  {
    if n == 0 then 0 else Covered(marks, n - 1, roster) + if Held(marks[n - 1], roster) then 1 else 0
  }

  function Measured(marks: seq<Mark>, n: nat): nat
    requires n <= |marks|
  {
    if n == 0 then 0 else Measured(marks, n - 1) + if marks[n - 1].measured then 1 else 0
  }

  ghost function HeldPlaces(marks: seq<Mark>, n: nat, roster: Roster): set<nat>
    requires n <= |marks|
  {
    set i: nat | i < n && Held(marks[i], roster)
  }

  ghost function MeasuredPlaces(marks: seq<Mark>, n: nat): set<nat>
    requires n <= |marks|
  {
    set i: nat | i < n && marks[i].measured
  }

  /** How many bare tables the roster covers, occurrence by occurrence. */
  lemma {:induction false} CoveredCounts(marks: seq<Mark>, n: nat, roster: Roster)
    requires n <= |marks|
    ensures Covered(marks, n, roster) == |HeldPlaces(marks, n, roster)|
  {
    hide Held;
    if n > 0 {
      CoveredCounts(marks, n - 1, roster);
      var last: nat := n - 1;
      var before := HeldPlaces(marks, last, roster);
      assert last !in before;
      assert HeldPlaces(marks, n, roster) == if Held(marks[last], roster) then before + {last} else before;
      hide HeldPlaces;
    }
  }

  lemma {:induction false} MeasuredCounts(marks: seq<Mark>, n: nat)
    requires n <= |marks|
    ensures Measured(marks, n) == |MeasuredPlaces(marks, n)|
  {
    if n > 0 {
      MeasuredCounts(marks, n - 1);
      var last: nat := n - 1;
      var before := MeasuredPlaces(marks, last);
      assert last !in before;
      assert MeasuredPlaces(marks, n) == if marks[last].measured then before + {last} else before;
      hide MeasuredPlaces;
    }
  }

  /** The bare tables that the roster does not hold, in order. */
  function Unheld(marks: seq<Mark>, n: nat, roster: Roster): seq<Problem>
    requires n <= |marks|
  {
    if n == 0 then []
    else
      var m := marks[n - 1];
      Unheld(marks, n - 1, roster) + if Bare(m) && m.digest !in roster then [Unrecorded(m.file, m.start)] else []
  }

  function Gone(order: seq<string>, n: nat, digests: set<string>): seq<Problem>
    requires n <= |order|
  {
    if n == 0 then [] else Gone(order, n - 1, digests) + if order[n - 1] !in digests then [Outlived(order[n - 1])] else []
  }

  lemma {:induction false} UnheldMember(marks: seq<Mark>, n: nat, roster: Roster, p: Problem)
    requires n <= |marks|
    ensures p in Unheld(marks, n, roster) <==>
            exists i | 0 <= i < n :: Bare(marks[i]) && marks[i].digest !in roster && p == Unrecorded(marks[i].file, marks[i].start)
  {
    hide Bare;
    if n > 0 { UnheldMember(marks, n - 1, roster, p); }
  }

  lemma {:induction false} UnheldNone(marks: seq<Mark>, n: nat, roster: Roster)
    requires n <= |marks|
    ensures Unheld(marks, n, roster) == [] <==> BareDigests(marks, n) <= roster.Keys
  {
    hide Bare;
    if n > 0 { UnheldNone(marks, n - 1, roster); }
  }

  lemma {:induction false} GoneMember(order: seq<string>, n: nat, digests: set<string>, p: Problem)
    requires n <= |order|
    ensures p in Gone(order, n, digests) <==> p.Outlived? && p.digest in order[..n] && p.digest !in digests
  {
    if n > 0 {
      GoneMember(order, n - 1, digests, p);
      assert order[..n] == order[..n - 1] + [order[n - 1]];
    }
  }

  lemma {:induction false} GoneNone(order: seq<string>, n: nat, digests: set<string>)
    requires n <= |order|
    ensures Gone(order, n, digests) == [] <==> forall k | k in order[..n] :: k in digests
  {
    if n > 0 {
      GoneNone(order, n - 1, digests);
      assert order[..n] == order[..n - 1] + [order[n - 1]];
    }
  }

  /** What a report of the roster should hold: each bare table it does not hold, and each entry of no bare
      table. */
  ghost predicate Due(p: Problem, marks: seq<Mark>, roster: Roster) {
    match p
    case Unrecorded(file, start) => exists i | 0 <= i < |marks| :: Bare(marks[i]) && marks[i].digest !in roster && marks[i].file == file && marks[i].start == start
    case Outlived(digest) => digest in roster && digest !in Digests(marks)
  }

  /** `check`: it reports just what is due, and so nothing exactly when the roster is the digests of the bare
      tables. */
  method Check(marks: seq<Mark>, roster: Roster, order: seq<string>) returns (seen: nat, covered: nat, wrong: seq<Problem>)
    requires (set k | k in order) == roster.Keys
    ensures seen == |MeasuredPlaces(marks, |marks|)| && covered == |HeldPlaces(marks, |marks|, roster)|
    ensures forall p :: p in wrong <==> Due(p, marks, roster)
    ensures wrong == [] <==> roster.Keys == Digests(marks)
  {
    seen, covered, wrong := 0, 0, [];
    var used: set<string> := {};
    for i := 0 to |marks|
      invariant seen == Measured(marks, i) && covered == Covered(marks, i, roster)
      invariant used == BareDigests(marks, i) * roster.Keys
      invariant wrong == Unheld(marks, i, roster)
    {
      var m := marks[i];
      if !m.measured { continue; }
      seen := seen + 1;
      if m.covered { continue; }
      if m.digest in roster {
        used := used + {m.digest};
        covered := covered + 1;
        continue;
      }
      wrong := wrong + [Unrecorded(m.file, m.start)];
    }
    ghost var first := wrong;
    for i := 0 to |order|
      invariant wrong == first + Gone(order, i, used)
    {
      if order[i] !in used {
        wrong := wrong + [Outlived(order[i])];
      }
    }
    MeasuredCounts(marks, |marks|);
    CoveredCounts(marks, |marks|, roster);
    ReportIsDue(marks, roster, order, used);
  }

  lemma {:induction false} ReportIsDue(marks: seq<Mark>, roster: Roster, order: seq<string>, used: set<string>)
    requires (set k | k in order) == roster.Keys && used == Digests(marks) * roster.Keys
    ensures var wrong := Unheld(marks, |marks|, roster) + Gone(order, |order|, used);
            && (forall p :: p in wrong <==> Due(p, marks, roster))
            && (wrong == [] <==> roster.Keys == Digests(marks))
  {
    var wrong := Unheld(marks, |marks|, roster) + Gone(order, |order|, used);
    assert order[..|order|] == order;
    assert forall k :: k in roster <==> k in (set j | j in order);
    forall p ensures p in wrong <==> Due(p, marks, roster) {
      UnheldMember(marks, |marks|, roster, p);
      GoneMember(order, |order|, used, p);
      hide Unheld, Gone, BareDigests, Bare;
    }
    UnheldNone(marks, |marks|, roster);
    GoneNone(order, |order|, used);
    hide Unheld, Gone, BareDigests;
  }

  datatype Entry = Entry(file: string, line: nat, digest: string)

  function EntryDigests(entries: seq<Entry>, n: nat): set<string>
    requires n <= |entries|
  {
    if n == 0 then {} else EntryDigests(entries, n - 1) + {entries[n - 1].digest}
  }

  predicate Distinct(entries: seq<Entry>, n: nat)
    requires n <= |entries|
  {
    n == 0 || (Distinct(entries, n - 1) && entries[n - 1].digest !in EntryDigests(entries, n - 1))
  }

  /** `freeze`: one entry for each bare digest, however many pages hold the table. */
  method Freeze(marks: seq<Mark>) returns (entries: seq<Entry>)
    ensures EntryDigests(entries, |entries|) == Digests(marks)
    ensures Distinct(entries, |entries|)
  {
    entries := [];
    for i := 0 to |marks|
      invariant EntryDigests(entries, |entries|) == BareDigests(marks, i)
      invariant Distinct(entries, |entries|)
    {
      var m := marks[i];
      if !m.measured || m.covered { continue; }
      if m.digest in EntryDigests(entries, |entries|) { continue; }
      Appended(entries, |entries|, Entry(m.file, m.start, m.digest));
      entries := entries + [Entry(m.file, m.start, m.digest)];
    }
  }

  lemma {:induction false} Appended(entries: seq<Entry>, n: nat, e: Entry)
    requires n <= |entries|
    ensures EntryDigests(entries + [e], n) == EntryDigests(entries, n)
    ensures Distinct(entries + [e], n) == Distinct(entries, n)
  {
    if n > 0 { Appended(entries, n - 1, e); }
  }

  /** `load_roster`: a dictionary by digest, later entries winning. */
  function LoadRoster(entries: seq<Entry>, n: nat): Roster
    requires n <= |entries|
  {
    if n == 0 then map[] else LoadRoster(entries, n - 1)[entries[n - 1].digest := entries[n - 1].file]
  }

  lemma {:induction false} RosterKeys(entries: seq<Entry>, n: nat)
    requires n <= |entries|
    ensures LoadRoster(entries, n).Keys == EntryDigests(entries, n)
  {
    if n > 0 { RosterKeys(entries, n - 1); }
  }

  lemma {:induction false} EntryDigestsMember(entries: seq<Entry>, n: nat, d: string)
    requires n <= |entries|
    ensures d in EntryDigests(entries, n) <==> exists i | 0 <= i < n :: entries[i].digest == d
  {
    if n > 0 {
      EntryDigestsMember(entries, n - 1, d);
      assert entries[n - 1].digest == d ==> exists i | 0 <= i < n :: entries[i].digest == d;
    }
  }

  /** Sorting the file does not change what it freezes. */
  lemma {:induction false} SortedRoster(entries: seq<Entry>, sorted: seq<Entry>)
    requires multiset(entries) == multiset(sorted)
    ensures EntryDigests(entries, |entries|) == EntryDigests(sorted, |sorted|)
  {
    hide EntryDigests;
    forall d ensures d in EntryDigests(entries, |entries|) <==> d in EntryDigests(sorted, |sorted|) {
      EntryDigestsMember(entries, |entries|, d);
      EntryDigestsMember(sorted, |sorted|, d);
      SameMembers(entries, sorted, d);
      SameMembers(sorted, entries, d);
    }
  }

  lemma {:induction false} SameMembers(a: seq<Entry>, b: seq<Entry>, d: string)
    requires multiset(a) == multiset(b)
    ensures (exists i | 0 <= i < |a| :: a[i].digest == d) ==> exists i | 0 <= i < |b| :: b[i].digest == d
  {
    if i :| 0 <= i < |a| && a[i].digest == d {
      assert a[i] in multiset(a);
      assert a[i] in b;
    }
  }

  /** Freezing a tree, sorting and storing the roster, loading it and checking the same tree
      reports nothing, also when one table stands in two pages. */
  method FreezeThenCheck(marks: seq<Mark>, sorted: seq<Entry>, order: seq<string>) returns (entries: seq<Entry>, wrong: seq<Problem>)
    requires (set k | k in order) == LoadRoster(sorted, |sorted|).Keys
    ensures multiset(entries) == multiset(sorted) ==> wrong == []
  {
    entries := Freeze(marks);
    var _, _, w := Check(marks, LoadRoster(sorted, |sorted|), order);
    wrong := w;
    RosterKeys(sorted, |sorted|);
    if multiset(entries) == multiset(sorted) { SortedRoster(entries, sorted); }
  }
}
