/** The cost-prose guard's loop over one file, with its three flags. */
module CostMarkers {
  import opened Options
  import opened Struck
  import opened Text
  import opened Excuses

  const NOT_A_CLAIM: string := "<!-- not a cost-model claim -->"

  /** `live`. */
  function LiveText(t: string, inside: bool): (Option<string>, bool) {
    var (kept, after) := Kept(t, inside);
    if kept.None? || Blank(kept.value) then (None, after) else (Some(Collapse(kept.value)), after)
  }

  /** What is live of a chunk: the words of what it keeps, each a space apart, or nothing if it keeps
      none. */
  lemma {:induction false} LiveWords(t: string, inside: bool)
    ensures var live, kept := LiveText(t, inside).0, Kept(t, inside).0;
            && (live.Some? <==> kept.Some? && exists c :: c in kept.value && !IsSpace(c))
            && (live.Some? ==> SplitWords(live.value) == SplitWords(kept.value)
                               && forall k | 0 <= k < |live.value| :: IsSpace(live.value[k]) ==> live.value[k] == ' ' && (k + 1 < |live.value| ==> live.value[k + 1] != ' '))
  {
    var kept := Kept(t, inside).0;
    if kept.Some? {
      CollapseWords(kept.value);
      forall k: nat | k < |Collapse(kept.value)| && IsSpace(Collapse(kept.value)[k])
        ensures Collapse(kept.value)[k] == ' ' && (k + 1 < |Collapse(kept.value)| ==> Collapse(kept.value)[k + 1] != ' ')
      {
        CollapseSpaces(kept.value, k);
      }
    }
    hide Kept, Collapse, SplitWords, IsSpace;
  }

  predicate Marked(t: string) { Contains(t, NOT_A_CLAIM) }

  predicate Alone(t: string) { Strip(t) == NOT_A_CLAIM }

  /** Chunk `k` on its own, by position: it starts inside a struck span exactly when an odd
      number of markers stands before it. Only a Markdown chunk can carry an excuse. */
  function Look(texts: seq<string>, k: nat, markdown: bool, claims: string -> bool): Seen
    requires k < |texts|
  {
    var live := LiveText(texts[k], Odd(TotalMarkers(texts[..k]))).0;
    Seen(markdown && Marked(texts[k]), markdown && Alone(texts[k]), live, live.Some? && claims(live.value))
  }

  function LookAll(texts: seq<string>, markdown: bool, claims: string -> bool): (ss: seq<Seen>)
    ensures |ss| == |texts|
    ensures forall k | 0 <= k < |texts| :: ss[k] == Look(texts, k, markdown, claims)
  {
    seq(|texts|, k requires 0 <= k < |texts| => Look(texts, k, markdown, claims))
  }

  lemma {:induction false} NoTildeIsClean(t: string)
    requires '~' !in t
    ensures Markers(t) == 0
  {
    assert Clean(t);
    FindClean(t);
  }

  lemma {:induction false} StrippedClean(t: string, m: string)
    requires Strip(t) == m && '~' !in m
    ensures Contains(t, m) && Markers(t) == 0
  {
    StripIsInside(t);
    hide Strip, Contains, Markers;
    assert !IsSpace('~');
    NoTildeIsClean(t);
  }

  lemma {:induction false} MarkerHasNoTilde()
    ensures '~' !in NOT_A_CLAIM
  {
  }

  lemma {:induction false} AloneIsMarkedAndClean(t: string)
    requires Alone(t)
    ensures Marked(t) && Markers(t) == 0
  {
    MarkerHasNoTilde();
    StrippedClean(t, NOT_A_CLAIM);
    hide Strip, Contains, Markers;
  }

  lemma {:induction false} SpanParity(texts: seq<string>, k: nat)
    requires k < |texts|
    ensures Odd(TotalMarkers(texts[..k + 1])) == LiveText(texts[k], Odd(TotalMarkers(texts[..k]))).1
    ensures Alone(texts[k]) ==> Odd(TotalMarkers(texts[..k + 1])) == Odd(TotalMarkers(texts[..k]))
  {
    hide Kept, Markers, Alone, Blank, Collapse, TotalMarkers;
    var before, t := texts[..k], texts[k];
    assert texts[..k + 1] == before + [t];
    TotalMarkersAppend(before, t);
    OddSum(TotalMarkers(before), Markers(t));
    KeptIsPieces(t, Odd(TotalMarkers(before)));
    if Alone(t) { AloneIsMarkedAndClean(t); }
  }

  /** What the loop sees of chunk `k` is what its position says. */
  lemma {:induction false} LookIs(texts: seq<string>, k: nat, markdown: bool, claims: string -> bool)
    requires k < |texts|
    ensures var s, live := LookAll(texts, markdown, claims)[k], LiveText(texts[k], Odd(TotalMarkers(texts[..k])));
            s == Seen(markdown && Marked(texts[k]), markdown && Alone(texts[k]), live.0, live.0.Some? && claims(live.0.value))
            && live.1 == Odd(TotalMarkers(texts[..k + 1]))
    ensures Alone(texts[k]) ==> Marked(texts[k]) && Odd(TotalMarkers(texts[..k + 1])) == Odd(TotalMarkers(texts[..k]))
  {
    SpanParity(texts, k);
    if Alone(texts[k]) { AloneIsMarkedAndClean(texts[k]); }
    hide LiveText, Alone, Marked, TotalMarkers, Odd;
  }

  datatype Flags = Flags(inside: bool, excused: bool, pending: Option<nat>)

  /** One turn of the loop. `excused` holds exactly when `pending` is set, before and after. */
  method ReadChunk(t: string, i: nat, markdown: bool, claims: string -> bool, f: Flags)
    returns (g: Flags, wrong: seq<Event>)
    requires f.excused ==> markdown && i > 0
    requires f.pending == if f.excused then Some(i - 1) else None
    ensures var alone, live := markdown && Marked(t) && Alone(t), LiveText(t, f.inside);
            g == Flags(if alone then f.inside else live.1, alone, if alone then Some(i) else None)
            && wrong == Added(Seen(markdown && Marked(t), alone, live.0, live.0.Some? && claims(live.0.value)), f.excused, i)
  {
    hide LiveText, Alone, Marked;
    wrong := [];
    var excused, inside, pending := f.excused, f.inside, f.pending;
    if markdown && Marked(t) {
      if pending.Some? {
        wrong := wrong + [Undeserved(pending.value)];
        pending := None;
      }
      excused := Alone(t);
      if excused {
        pending := Some(i);
      } else {
        var (here, after) := LiveText(t, inside);
        inside := after;
        if here.None? || !claims(here.value) {
          wrong := wrong + [Undeserved(i)];
        }
      }
    } else if markdown && excused {
      excused := false;
      var (here, after) := LiveText(t, inside);
      inside := after;
      if pending.Some? {
        if here.None? || !claims(here.value) {
          wrong := wrong + [Undeserved(pending.value)];
        }
        pending := None;
      }
    } else {
      var (current, after) := LiveText(t, inside);
      inside := after;
      if current.Some? {
        wrong := wrong + [Judged(i, current.value)];
      }
    }
    g := Flags(inside, excused, pending);
  }

  /** `excused`, `inside` and `pending` carried from chunk to chunk come to the report that the
      chunks' positions alone give. */
  method CheckFile(texts: seq<string>, markdown: bool, claims: string -> bool) returns (wrong: seq<Event>)
    ensures wrong == Report(LookAll(texts, markdown, claims))
  {
    hide Strip, Contains, Collapse, Blank, Kept, Markers, Marked, Alone, LiveText, Look, Added;
    ghost var ss := LookAll(texts, markdown, claims);
    wrong := [];
    var f := Flags(false, false, None);
    for i := 0 to |texts|
      invariant f.inside == Odd(TotalMarkers(texts[..i]))
      invariant f.excused == Excused(ss, i) && (f.excused ==> markdown)
      invariant f.pending == if f.excused then Some(i - 1) else None
      invariant wrong == Log(ss, i)
    {
      hide Log, TotalMarkers, Odd, LookAll;
      LookIs(texts, i, markdown, claims);
      LogNext(ss, i);
      var more;
      f, more := ReadChunk(texts[i], i, markdown, claims, f);
      wrong := wrong + more;
    }
    if f.pending.Some? {
      wrong := wrong + [Undeserved(f.pending.value)];
    }
  }
}
