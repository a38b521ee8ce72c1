/** Closed caveats: each has a witness in the tree or an explained exemption, and nothing else has. */
module ClosedCaveats {

  /** A caveat's entry and text. */
  datatype Key = Key(entry: string, text: string)

  /** The rosters: what each closed caveat names, the kinds of exemption that are explained, the
      caveats with a reason for theirs, and the witnesses that are defined. */
  datatype Rosters = Rosters(
    witnessed: map<Key, string>, kinds: set<string>, because: set<Key>, defined: map<string, (string, string)>)

  predicate Exempts(name: string) { name != [] && name[0] == '=' }

  // ----- The reference: each caveat alone

  /** What one row of the roster must be, when `present` says which needles are in which files. */
  predicate RowHolds(r: Rosters, present: set<(string, string)>, k: Key)
    requires k in r.witnessed
  {
    var name := r.witnessed[k];
    && (if Exempts(name) then name[1..] in r.kinds else name in r.defined)
    && (k in r.because <==> Exempts(name))
    && (name in r.defined ==> r.defined[name] in present)
  }

  ghost predicate Holds(closed: seq<Key>, r: Rosters, present: set<(string, string)>) {
    && closed != []
    && (forall k :: k in closed <==> k in r.witnessed)
    && (forall k | k in r.witnessed :: RowHolds(r, present, k))
    && r.because <= r.witnessed.Keys
  }

  // ----- The eight checks

  function NamesUsed(r: Rosters, exempt: bool): set<string> {
    set k | k in r.witnessed && Exempts(r.witnessed[k]) == exempt :: r.witnessed[k]
  }

  function KindsUsed(r: Rosters): set<string> { set w | w in NamesUsed(r, true) && w != [] :: w[1..] }

  function ExemptRows(r: Rosters): set<Key> { set k | k in r.witnessed && Exempts(r.witnessed[k]) }

  /** `check`: the outcome of each rule, in the order recorded. `rows` is the roster in any order. */
  method Check(closed: seq<Key>, r: Rosters, present: set<(string, string)>, rows: seq<Key>) returns (out: seq<bool>)
    requires forall k :: k in rows <==> k in r.witnessed
    ensures |out| == 8
    ensures (forall i | 0 <= i < 8 :: out[i]) <==> Holds(closed, r, present)
  {
    var unrostered := [];
    for i := 0 to |closed|
      invariant unrostered == [] <==> forall j | 0 <= j < i :: closed[j] in r.witnessed
    {
      if closed[i] !in r.witnessed { unrostered := unrostered + [closed[i]]; }
    }
    var badExempt := KindsUsed(r) - r.kinds;
    var unreasoned := ExemptRows(r) - r.because;
    var staleReason := r.because - ExemptRows(r);
    var unknown := NamesUsed(r, false) - r.defined.Keys;
    var orphans := [];
    var gone := [];
    for i := 0 to |rows|
      invariant orphans == [] <==> forall j | 0 <= j < i :: rows[j] in closed
    {
      if rows[i] !in closed { orphans := orphans + [rows[i]]; }
    }
    for i := 0 to |rows|
      invariant gone == [] <==> forall j | 0 <= j < i :: Stands(r, present, rows[j])
    {
      var name := r.witnessed[rows[i]];
      if name !in r.defined { continue; }
      if r.defined[name] !in present { gone := gone + [rows[i]]; }
    }
    assert gone == [] <==> forall k | k in rows :: Stands(r, present, k);
    KindsIff(r);
    ReasonsIff(r);
    UnknownIff(r);
    hide KindsUsed, ExemptRows, NamesUsed, Exempts;
    out := [closed != [], unrostered == [], badExempt == {}, unreasoned == {}, staleReason == {}, unknown == {}, orphans == [], gone == []];
    assert (forall i | 0 <= i < 8 :: out[i]) <==>
      out[0] && out[1] && out[2] && out[3] && out[4] && out[5] && out[6] && out[7];
  }

  /** The row's witness, if it is one that is defined, is in the tree. */
  predicate Stands(r: Rosters, present: set<(string, string)>, k: Key) {
    k in r.witnessed && (r.witnessed[k] in r.defined ==> r.defined[r.witnessed[k]] in present)
  }

  lemma {:induction false} NothingLeft<T>(a: set<T>, b: set<T>)
    ensures a - b == {} <==> a <= b
  {
    assert a == (a - b) + (a * b);
  }

  lemma {:induction false} KindsIff(r: Rosters)
    ensures KindsUsed(r) - r.kinds == {} <==>
            forall k | k in r.witnessed && Exempts(r.witnessed[k]) :: r.witnessed[k][1..] in r.kinds
  {
    NothingLeft(KindsUsed(r), r.kinds);
    if KindsUsed(r) - r.kinds == {} {
      forall k | k in r.witnessed && Exempts(r.witnessed[k]) ensures r.witnessed[k][1..] in r.kinds {
        assert r.witnessed[k] in NamesUsed(r, true);
        assert r.witnessed[k][1..] in KindsUsed(r);
      }
    }
  }

  lemma {:induction false} UnknownIff(r: Rosters)
    ensures NamesUsed(r, false) - r.defined.Keys == {} <==>
            forall k | k in r.witnessed && !Exempts(r.witnessed[k]) :: r.witnessed[k] in r.defined
  {
    NothingLeft(NamesUsed(r, false), r.defined.Keys);
    if NamesUsed(r, false) - r.defined.Keys == {} {
      forall k | k in r.witnessed && !Exempts(r.witnessed[k]) ensures r.witnessed[k] in r.defined {
        assert r.witnessed[k] in NamesUsed(r, false);
      }
    }
  }

  lemma {:induction false} ReasonsIff(r: Rosters)
    ensures ExemptRows(r) - r.because == {} && r.because - ExemptRows(r) == {} <==>
            r.because <= r.witnessed.Keys && forall k | k in r.witnessed :: k in r.because <==> Exempts(r.witnessed[k])
  {
    NothingLeft(ExemptRows(r), r.because);
    NothingLeft(r.because, ExemptRows(r));
  }
}
