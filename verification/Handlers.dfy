/** The public methods of every `impl Catalog` block that hand out a `TableDef`. */
module Handlers {
  import opened Options
  import opened Text

  /** A source line: its text, the indentation of an `impl Catalog` on it, the name of a public
      method on it, the line without trailing space, and whether a signature ends with it. */
  datatype Line = Line(text: string, opens: Option<string>, stripped: string, accessor: Option<string>, ends: bool)

  // ----- The return type

  /** What follows the first arrow mentions `TableDef`. */
  predicate HandsOut(sig: seq<string>) {
    var s := Joined(sig);
    exists i | 0 <= i < |s| ::
      At(s, "->", i) && (forall j | 0 <= j < i :: !At(s, "->", j)) && Contains(s[i + 2..], "TableDef")
  }

  /** The first arrow of the signature, and the word behind it. */
  predicate ArrowThenWord(s: string, i: nat, j: nat) {
    i + 2 <= j <= |s| && At(s, "->", i) && At(s, "TableDef", j) && forall k | 0 <= k < i :: !At(s, "->", k)
  }

  /** The word stands somewhere behind the first arrow, which there has to be. */
  lemma {:induction false} HandsOutIff(sig: seq<string>)
    ensures HandsOut(sig) <==> exists i: nat, j: nat :: ArrowThenWord(Joined(sig), i, j)
  {
    var s := Joined(sig);
    if HandsOut(sig) {
      var i: nat :| i < |s| && At(s, "->", i) && (forall j | 0 <= j < i :: !At(s, "->", j)) && Contains(s[i + 2..], "TableDef");
      WordBehind(s, i);
    }
    if i: nat, j: nat :| ArrowThenWord(s, i, j) { WordIsBehind(sig, i, j); }
  }

  lemma {:induction false} WordIsBehind(sig: seq<string>, i: nat, j: nat)
    requires ArrowThenWord(Joined(sig), i, j)
    ensures HandsOut(sig)
  {
    var s := Joined(sig);
    AtShift(s, i + 2, "TableDef", j - i - 2);
    var rest, k: nat := s[i + 2..], j - i - 2;
    assert At(rest, "TableDef", k) && k <= |rest|;
    hide At, Joined;
    assert Contains(rest, "TableDef");
  }

  lemma {:induction false} WordBehind(s: string, i: nat)
    requires i + 2 <= |s| && At(s, "->", i) && (forall j | 0 <= j < i :: !At(s, "->", j)) && Contains(s[i + 2..], "TableDef")
    ensures exists j: nat :: ArrowThenWord(s, i, j)
  {
    hide At;
    var j: nat :| j <= |s[i + 2..]| && At(s[i + 2..], "TableDef", j);
    AtShift(s, i + 2, "TableDef", j);
    assert ArrowThenWord(s, i, i + 2 + j);
  }

  lemma {:induction false} AtShift(s: string, from: nat, sub: string, j: nat)
    requires from <= |s|
    ensures At(s[from..], sub, j) <==> At(s, sub, from + j)
  {
    if from + j + |sub| <= |s| { assert s[from..][j..j + |sub|] == s[from + j..from + j + |sub|]; }
  }

  // ----- One line

  datatype State = State(inside: bool, closing: string, signature: seq<string>, name: string, found: set<string>)

  const START := State(false, "}", [], "", {})

  /** The line is read as part of a signature. */
  predicate Reads(s: State, l: Line) {
    l.opens.None? && s.inside && l.stripped != s.closing && (s.signature != [] || l.accessor.Some?)
  }

  function Name(s: State, l: Line): string
    requires Reads(s, l)
  {
    if s.signature != [] then s.name else l.accessor.value
  }

  function Step(s: State, l: Line): State {
    if l.opens.Some? then s.(inside := true, closing := l.opens.value + "}")
    else if !s.inside then s
    else if l.stripped == s.closing then s.(inside := false, signature := [])
    else if !Reads(s, l) then s
    else
      var sig, name := s.signature + [l.text], Name(s, l);
      if !l.ends then s.(signature := sig, name := name)
      else s.(signature := [], name := name, found := s.found + if HandsOut(sig) then {name} else {})
  }

  function Run(s: State, lines: seq<Line>, n: nat): State
    requires n <= |lines|
  {
    if n == 0 then s else Step(Run(s, lines, n - 1), lines[n - 1])
  }

  function Found(lines: seq<Line>): set<string> { Run(START, lines, |lines|).found }

  predicate EndsOutside(lines: seq<Line>) { !Run(START, lines, |lines|).inside }

  /** `impl_catalog_accessors`. */
  method ImplCatalogAccessors(lines: seq<Line>) returns (found: set<string>)
    ensures found == Found(lines)
  {
    hide HandsOut;
    found := {};
    var inside, closing, signature, name := false, "}", [], "";
    for n := 0 to |lines|
      invariant State(inside, closing, signature, name, found) == Run(START, lines, n)
    {
      var line := lines[n];
      if line.opens.Some? {
        inside := true;
        closing := line.opens.value + "}";
        continue;
      }
      if !inside { continue; }
      if line.stripped == closing {
        inside := false;
        signature := [];
        continue;
      }
      if signature != [] {
        signature := signature + [line.text];
      } else {
        if line.accessor.None? { continue; }
        name := line.accessor.value;
        assert signature + [line.text] == [line.text];
        signature := [line.text];
      }
      if line.ends {
        if HandsOut(signature) { found := found + {name}; } else { assert found + {} == found; }
        signature := [];
      }
    }
  }

  // ----- Outside a block nothing is remembered

  lemma {:induction false} OutsideHasNoSignature(s: State, lines: seq<Line>, n: nat)
    requires n <= |lines| && (!s.inside ==> s.signature == [])
    ensures var t := Run(s, lines, n); !t.inside ==> t.signature == []
  {
    hide HandsOut;
    if n > 0 { OutsideHasNoSignature(s, lines, n - 1); }
  }

  /** The states differ in what they have found and in variables that will be set before they are
      read. */
  predicate Alike(s: State, t: State) {
    && s.inside == t.inside && s.signature == t.signature
    && (s.inside ==> s.closing == t.closing)
    && (s.signature != [] ==> s.name == t.name)
  }

  lemma {:induction false} RunAlike(s: State, t: State, lines: seq<Line>, n: nat)
    requires n <= |lines| && Alike(s, t) && t.found == {}
    ensures var s', t' := Run(s, lines, n), Run(t, lines, n);
            Alike(s', t') && s'.found == s.found + t'.found
  {
    hide HandsOut;
    if n > 0 { RunAlike(s, t, lines, n - 1); }
  }

  lemma {:induction false} RunSplit(s: State, a: seq<Line>, b: seq<Line>, n: nat)
    requires n <= |b|
    ensures Run(s, a + b, |a| + n) == Run(Run(s, a, |a|), b, n)
  {
    hide Step;
    if n == 0 { RunPrefix(s, a, b, |a|); } else { RunSplit(s, a, b, n - 1); }
  }

  lemma {:induction false} RunPrefix(s: State, a: seq<Line>, b: seq<Line>, n: nat)
    requires n <= |a|
    ensures Run(s, a + b, n) == Run(s, a, n)
  {
    hide Step;
    if n > 0 { RunPrefix(s, a, b, n - 1); }
  }

  /** A file cut where no block is open: the parts can be read apart. */
  lemma {:induction false} Compositional(a: seq<Line>, b: seq<Line>)
    requires EndsOutside(a)
    ensures Found(a + b) == Found(a) + Found(b)
    ensures EndsOutside(a + b) == EndsOutside(b)
  {
    RunSplit(START, a, b, |b|);
    OutsideHasNoSignature(START, a, |a|);
    RunAlike(Run(START, a, |a|), START, b, |b|);
    hide Run;
  }

  // ----- The reference: one block, signature by signature

  predicate Plain(l: Line, closing: string) { l.opens.None? && l.stripped != closing }

  /** The first line from `k` on that ends a signature. */
  function EndFrom(body: seq<Line>, k: nat): (e: nat)
    requires k <= |body|
    ensures k <= e <= |body|
    decreases |body| - k
  {
    if k == |body| || body[k].ends then k else EndFrom(body, k + 1)
  }

  function Texts(body: seq<Line>, k: nat, n: nat): seq<string>
    requires n <= |body|
  {
    if n <= k then [] else Texts(body, k, n - 1) + [body[n - 1].text]
  }

  /** The methods of a block: from each public method to the end of its signature, then on. */
  function Accessors(body: seq<Line>, k: nat): set<string>
    requires k <= |body|
    decreases |body| - k
  {
    if k == |body| then {}
    else if body[k].accessor.None? then Accessors(body, k + 1)
    else
      var e := EndFrom(body, k);
      if e == |body| then {}
      else (if HandsOut(Texts(body, k, e + 1)) then {body[k].accessor.value} else {}) + Accessors(body, e + 1)
  }

  /** Between signatures, in a block that `closing` would end. */
  predicate Ready(s: State, closing: string) { s.inside && s.closing == closing && s.signature == [] }

  predicate AllPlain(body: seq<Line>, closing: string) { forall k | 0 <= k < |body| :: Plain(body[k], closing) }

  /** Reading a signature that began on line `k`, up to line `n`. */
  lemma {:induction false} SignatureGrows(s: State, body: seq<Line>, closing: string, k: nat, n: nat)
    requires AllPlain(body, closing) && k < |body| && k < n <= EndFrom(body, k) && body[k].accessor.Some?
    requires Ready(Run(s, body, k), closing)
    ensures Run(s, body, n) == Run(s, body, k).(signature := Texts(body, k, n), name := body[k].accessor.value)
    ensures Texts(body, k, n) != []
  {
    hide HandsOut;
    NoEndBefore(body, k, n - 1);
    assert Plain(body[n - 1], closing);
    hide AllPlain, EndFrom;
    if n == k + 1 {
      assert Texts(body, k, k) == [];
    } else {
      SignatureGrows(s, body, closing, k, n - 1);
    }
  }

  lemma {:induction false} NoEndBefore(body: seq<Line>, k: nat, i: nat)
    requires k <= |body| && k <= i < EndFrom(body, k)
    ensures !body[i].ends
    decreases i - k
  {
    if k < i { NoEndBefore(body, k + 1, i); }
  }

  lemma {:induction false} EndEnds(body: seq<Line>, k: nat)
    requires k <= |body| && EndFrom(body, k) < |body|
    ensures body[EndFrom(body, k)].ends
    decreases |body| - k
  {
    if !body[k].ends { EndEnds(body, k + 1); }
  }

  /** The line that ends the signature settles it. */
  lemma {:induction false} SignatureEnds(s: State, body: seq<Line>, closing: string, k: nat)
    requires AllPlain(body, closing) && k < |body| && EndFrom(body, k) < |body| && body[k].accessor.Some?
    requires Ready(Run(s, body, k), closing)
    ensures var e := EndFrom(body, k); var t := Run(s, body, e + 1);
            && Ready(t, closing)
            && t.found == Run(s, body, k).found + if HandsOut(Texts(body, k, e + 1)) then {body[k].accessor.value} else {}
  {
    var e := EndFrom(body, k);
    EndEnds(body, k);
    assert Plain(body[e], closing);
    if k < e { SignatureGrows(s, body, closing, k, e); } else { assert Texts(body, k, k) == []; }
    hide HandsOut, AllPlain, EndFrom;
    assert Texts(body, k, e + 1) == Texts(body, k, e) + [body[e].text];
  }

  /** The line-by-line pass over a block's body finds what the reference does, and ends in it. */
  lemma {:induction false} BodyFound(s: State, body: seq<Line>, closing: string, k: nat)
    requires AllPlain(body, closing) && k <= |body| && Ready(Run(s, body, k), closing)
    ensures var t := Run(s, body, |body|);
            t.inside && t.closing == closing && t.found == Run(s, body, k).found + Accessors(body, k)
    decreases |body| - k
  {
    hide HandsOut;
    if k < |body| {
      var e := EndFrom(body, k);
      if body[k].accessor.None? {
        assert Plain(body[k], closing);
        BodyFound(s, body, closing, k + 1);
      } else if e == |body| {
        SignatureGrows(s, body, closing, k, |body|);
      } else {
        SignatureEnds(s, body, closing, k);
        hide AllPlain, EndFrom, Ready, Step, Run;
        BodyFound(s, body, closing, e + 1);
      }
    }
  }

  // ----- The reference: a file of blocks

  /** Lines outside any block, or one whole block from its `impl` to its closing brace. */
  datatype Segment = Gap(lines: seq<Line>) | Block(first: Line, body: seq<Line>, last: Line)

  predicate WellFormed(g: Segment) {
    match g
    case Gap(lines) => forall k | 0 <= k < |lines| :: lines[k].opens.None?
    case Block(first, body, last) =>
      first.opens.Some?
      && var closing := first.opens.value + "}";
         AllPlain(body, closing) && last.opens.None? && last.stripped == closing
  }

  function LinesOf(g: Segment): seq<Line> {
    match g
    case Gap(lines) => lines
    case Block(first, body, last) => [first] + body + [last]
  }

  function AccessorsOf(g: Segment): set<string> { if g.Block? then Accessors(g.body, 0) else {} }

  lemma {:induction false} GapFound(lines: seq<Line>, n: nat)
    requires n <= |lines| && WellFormed(Gap(lines))
    ensures Run(START, lines, n) == START
  {
    if n > 0 { GapFound(lines, n - 1); }
  }

  lemma {:induction false} BlockFound(g: Segment)
    requires g.Block? && WellFormed(g)
    ensures Found(LinesOf(g)) == Accessors(g.body, 0) && EndsOutside(LinesOf(g))
  {
    hide HandsOut;
    var entered := Run(START, [g.first], 1);
    assert entered == Step(Run(START, [g.first], 0), g.first);
    var closing := g.first.opens.value + "}";
    BodyFound(entered, g.body, closing, 0);
    RunSplit(START, [g.first], g.body, |g.body|);
    RunSplit(START, [g.first] + g.body, [g.last], 1);
    var ended := Run(entered, g.body, |g.body|);
    assert Run(ended, [g.last], 1) == Step(Run(ended, [g.last], 0), g.last);
    hide Accessors, AllPlain;
  }

  lemma {:induction false} SegmentFound(g: Segment)
    requires WellFormed(g)
    ensures Found(LinesOf(g)) == AccessorsOf(g) && EndsOutside(LinesOf(g))
  {
    match g
    case Gap(lines) => GapFound(lines, |lines|);
    case Block(_, _, _) => BlockFound(g);
  }

  function AllLines(gs: seq<Segment>, n: nat): seq<Line>
    requires n <= |gs|
  {
    if n == 0 then [] else AllLines(gs, n - 1) + LinesOf(gs[n - 1])
  }

  function AllAccessors(gs: seq<Segment>, n: nat): set<string>
    requires n <= |gs|
  {
    if n == 0 then {} else AllAccessors(gs, n - 1) + AccessorsOf(gs[n - 1])
  }

  /** However many blocks the file holds, and wherever they stand, the methods of all of them are
      found and nothing else. */
  lemma {:induction false} EveryBlockFound(gs: seq<Segment>, n: nat)
    requires n <= |gs| && forall k | 0 <= k < n :: WellFormed(gs[k])
    ensures Found(AllLines(gs, n)) == AllAccessors(gs, n) && EndsOutside(AllLines(gs, n))
  {
    hide Found, EndsOutside, WellFormed;
    if n == 0 {
      NothingFound();
    } else {
      EveryBlockFound(gs, n - 1);
      SegmentFound(gs[n - 1]);
      Compositional(AllLines(gs, n - 1), LinesOf(gs[n - 1]));
    }
  }

  lemma {:induction false} NothingFound()
    ensures Found([]) == {} && EndsOutside([])
  {
  }
}
