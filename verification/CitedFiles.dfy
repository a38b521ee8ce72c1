/** Which files a cited path could be: a precomputed suffix index against a filter. */
module CitedFiles {

  // ----- Paths and their parts

  function Slash(s: string, from: nat): (i: nat)
    requires from <= |s|
    ensures from <= i <= |s| && (i < |s| ==> s[i] == '/')
    ensures forall j | from <= j < i :: s[j] != '/'
    decreases |s| - from
  {
    if from == |s| || s[from] == '/' then from else Slash(s, from + 1)
  }

  /** `path.split("/")`. */
  function Split(s: string): (r: seq<string>)
    ensures |r| > 0
    decreases |s|
  {
    var i := Slash(s, 0);
    if i == |s| then [s] else [s[..i]] + Split(s[i + 1..])
  }

  /** `"/".join(parts[at:])`. */
  function JoinFrom(parts: seq<string>, at: nat): string
    requires at < |parts|
    decreases |parts| - at
  {
    if at == |parts| - 1 then parts[at] else parts[at] + "/" + JoinFrom(parts, at + 1)
  }

  /** `s` is `path` or what follows one of its slashes. */
  predicate IsTail(path: string, s: string) {
    s == path || (|s| < |path| && path[|path| - |s| - 1] == '/' && path[|path| - |s|..] == s)
  }

  lemma {:induction false} JoinDrop(first: string, parts: seq<string>, at: nat)
    requires at < |parts|
    ensures JoinFrom([first] + parts, at + 1) == JoinFrom(parts, at)
    decreases |parts| - at
  {
    if at < |parts| - 1 { JoinDrop(first, parts, at + 1); }
  }

  /** A path with a slash: its first part, then the parts of the rest. */
  lemma {:induction false} SplitStep(path: string, i: nat, at: nat)
    requires i == Slash(path, 0) < |path| && at <= |Split(path[i + 1..])|
    ensures |Split(path)| == 1 + |Split(path[i + 1..])|
    ensures at == 0 ==> JoinFrom(Split(path), 0) == path[..i] + "/" + JoinFrom(Split(path[i + 1..]), 0)
    ensures at > 0 ==> JoinFrom(Split(path), at) == JoinFrom(Split(path[i + 1..]), at - 1)
  {
    var first, parts := path[..i], Split(path[i + 1..]);
    assert Split(path) == [first] + parts;
    hide Split;
    JoinDrop(first, parts, if at == 0 then 0 else at - 1);
  }

  lemma {:induction false} JoinIsWhole(path: string)
    ensures JoinFrom(Split(path), 0) == path
    decreases |path|
  {
    var i := Slash(path, 0);
    if i < |path| {
      SplitStep(path, i, 0);
      JoinIsWhole(path[i + 1..]);
      hide Split, JoinFrom, Slash;
      assert path == path[..i] + "/" + path[i + 1..];
    }
  }

  lemma {:induction false} TailLonger(path: string, i: nat, s: string)
    requires i < |path| && path[i] == '/' && IsTail(path[i + 1..], s)
    ensures IsTail(path, s) && |s| < |path|
  {
    var rest := path[i + 1..];
    assert path[|path| - |s|..] == rest[|rest| - |s|..];
  }

  /** What is left of a path after `at` parts: the whole path first, then shorter and shorter. */
  lemma {:induction false} JoinIsTail(path: string, at: nat)
    requires at < |Split(path)|
    ensures IsTail(path, JoinFrom(Split(path), at))
    ensures at > 0 ==> |JoinFrom(Split(path), at)| < |path|
    decreases |path|
  {
    var i := Slash(path, 0);
    if at == 0 {
      JoinIsWhole(path);
    } else {
      assert i < |path|;
      SplitStep(path, i, at);
      JoinIsTail(path[i + 1..], at - 1);
      hide Split, JoinFrom, Slash, IsTail;
      TailLonger(path, i, JoinFrom(Split(path[i + 1..]), at - 1));
    }
  }

  lemma {:induction false} TailOfRest(path: string, s: string)
    requires IsTail(path, s) && s != path
    ensures Slash(path, 0) < |path| && IsTail(path[Slash(path, 0) + 1..], s)
  {
    var k := |path| - |s| - 1;
    var i := Slash(path, 0);
    assert path[k] == '/' && i <= k;
    var rest := path[i + 1..];
    if i == k {
      assert rest == s;
    } else {
      assert rest[|rest| - |s| - 1] == path[k] && rest[|rest| - |s|..] == path[|path| - |s|..];
    }
  }

  /** Which part of the path the tail `s` begins with. */
  lemma {:induction false} TailIsJoin(path: string, s: string) returns (at: nat)
    requires IsTail(path, s)
    ensures at < |Split(path)| && JoinFrom(Split(path), at) == s
    decreases |path|
  {
    hide Split, JoinFrom, IsTail, Slash;
    if s == path {
      JoinIsWhole(path);
      at := 0;
    } else {
      TailOfRest(path, s);
      var i := Slash(path, 0);
      var b := TailIsJoin(path[i + 1..], s);
      SplitStep(path, i, b + 1);
      at := b + 1;
    }
  }

  lemma {:induction false} JoinLengths(path: string, a: nat, b: nat)
    requires a < b < |Split(path)|
    ensures |JoinFrom(Split(path), b)| < |JoinFrom(Split(path), a)|
    decreases b - a
  {
    var parts := Split(path);
    if a + 1 < b { JoinLengths(path, a + 1, b); }
    assert JoinFrom(parts, a) == parts[a] + "/" + JoinFrom(parts, a + 1);
  }

  // ----- The reference

  /** The files with `s` as a tail, among the first `n`, in order. */
  function Tails(files: seq<string>, n: nat, s: string): seq<string>
    requires n <= |files|
  {
    if n == 0 then [] else Tails(files, n - 1, s) + if IsTail(files[n - 1], s) then [files[n - 1]] else []
  }

  /** A tracked path is itself alone; anything else is every file it is the tail of. */
  function Denotes(files: seq<string>, s: string): seq<string> {
    if s in files then [s] else Tails(files, |files|, s)
  }

  type Index = map<string, seq<string>>

  function Get(m: Index, s: string): seq<string> { if s in m then m[s] else [] }

  ghost predicate Matches(m: Index, s: string, r: seq<string>) { (s in m <==> r != []) && (s in m ==> m[s] == r) }

  // ----- The two loops

  /** `s` is among the first `n` tails of `path`. */
  predicate AmongFirst(path: string, n: nat, s: string)
    requires n <= |Split(path)|
  {
    n > 0 && (JoinFrom(Split(path), n - 1) == s || AmongFirst(path, n - 1, s))
  }

  lemma {:induction false} AmongFirstNew(path: string, n: nat, b: nat)
    requires n <= b < |Split(path)|
    ensures !AmongFirst(path, n, JoinFrom(Split(path), b))
  {
    if n > 0 {
      AmongFirstNew(path, n - 1, b);
      JoinLengths(path, n - 1, b);
      hide JoinFrom;
    }
  }

  lemma {:induction false} AmongFirstAt(path: string, n: nat, at: nat)
    requires at < n <= |Split(path)|
    ensures AmongFirst(path, n, JoinFrom(Split(path), at))
  {
    if at < n - 1 { AmongFirstAt(path, n - 1, at); }
  }

  lemma {:induction false} AmongFirstTail(path: string, n: nat, s: string)
    requires n <= |Split(path)| && AmongFirst(path, n, s)
    ensures IsTail(path, s)
  {
    JoinIsTail(path, n - 1);
    if JoinFrom(Split(path), n - 1) != s { AmongFirstTail(path, n - 1, s); }
  }

  lemma {:induction false} AmongAllIff(path: string, s: string)
    ensures AmongFirst(path, |Split(path)|, s) <==> IsTail(path, s)
  {
    if IsTail(path, s) {
      var at := TailIsJoin(path, s);
      AmongFirstAt(path, |Split(path)|, at);
    } else if AmongFirst(path, |Split(path)|, s) {
      AmongFirstTail(path, |Split(path)|, s);
    }
  }

  /** One path's tails, each given the path: `setdefault(...).append(path)`. */
  method AddPath(m0: Index, path: string) returns (m: Index)
    requires forall s | s in m0 :: m0[s] != []
    ensures forall s | s in m :: m[s] != []
    ensures forall s :: Get(m, s) == Get(m0, s) + if IsTail(path, s) then [path] else []
  {
    m := m0;
    var parts := Split(path);
    for at := 0 to |parts|
      invariant forall s | s in m :: m[s] != []
      invariant forall s :: Get(m, s) == Get(m0, s) + if AmongFirst(path, at, s) then [path] else []
    {
      var key := JoinFrom(parts, at);
      AmongFirstNew(path, at, at);
      m := m[key := Get(m, key) + [path]];
    }
    forall s ensures AmongFirst(path, |parts|, s) <==> IsTail(path, s) { AmongAllIff(path, s); }
  }

  /** `tracked` builds exactly the filter, with a path written from the root overriding it. */
  method Tracked(files: seq<string>) returns (m: Index)
    ensures forall s :: Matches(m, s, Denotes(files, s))
  {
    m := map[];
    for i := 0 to |files|
      invariant forall s | s in m :: m[s] != []
      invariant forall s :: Get(m, s) == Tails(files, i, s)
    {
      m := AddPath(m, files[i]);
    }
    ghost var tails := m;
    for i := 0 to |files|
      invariant forall s :: if s in files[..i] then s in m && m[s] == [s] else (s in m <==> s in tails) && (s in m ==> m[s] == tails[s])
    {
      assert files[..i + 1] == files[..i] + [files[i]];
      m := m[files[i] := [files[i]]];
    }
    assert files[..|files|] == files;
    hide Tails, IsTail;
    forall s ensures Matches(m, s, Denotes(files, s)) {
      assert Get(tails, s) == Tails(files, |files|, s);
    }
  }

  // ----- The rules

  /** `differ`: the files do not all hold the same bytes. */
  predicate Differ(paths: seq<string>, content: map<string, string>)
    requires forall p | p in paths :: p in content
  {
    exists i, j | 0 <= i < |paths| && 0 <= j < |paths| :: content[paths[i]] != content[paths[j]]
  }

  datatype Problem = Missing(path: string) | Ambiguous(path: string) | Uncited(path: string) | Arrived(path: string)

  /** A citation that some tracked file answers, every one of them with the same bytes. */
  ghost predicate Resolves(files: seq<string>, content: map<string, string>, path: string) {
    var ds := Denotes(files, path);
    ds != [] && forall a, b | a in ds && b in ds :: a in content && b in content && content[a] == content[b]
  }

  /** `main`'s rules: the run is clean exactly when every citation that is not another project's
      resolves, and every path named as another project's is cited and does not. */
  method CheckCitations(files: seq<string>, content: map<string, string>, cited: seq<string>, external: seq<string>)
    returns (problems: seq<Problem>)
    requires forall f | f in files :: f in content
    ensures problems == [] <==>
            (forall p | p in cited && p !in external :: Resolves(files, content, p))
            && (forall p | p in external :: p in cited && Denotes(files, p) == [])
  {
    var here := Tracked(files);
    problems := [];
    for i := 0 to |cited|
      invariant problems == [] <==> forall j | 0 <= j < i && cited[j] !in external :: Resolves(files, content, cited[j])
    {
      var p := cited[i];
      assert Matches(here, p, Denotes(files, p));
      DenotesTracked(files, p);
      hide Denotes;
      if p in external { continue; }
      if p !in here {
        problems := problems + [Missing(p)];
      } else if |here[p]| > 1 && Differ(here[p], content) {
        problems := problems + [Ambiguous(p)];
      }
      ResolvesIff(files, content, p);
    }
    ghost var before := problems;
    for i := 0 to |external|
      invariant problems == [] <==> before == [] && forall j | 0 <= j < i :: external[j] in cited && Denotes(files, external[j]) == []
    {
      var p := external[i];
      assert Matches(here, p, Denotes(files, p));
      hide Denotes;
      if p !in cited { problems := problems + [Uncited(p)]; }
      else if p in here { problems := problems + [Arrived(p)]; }
    }
  }

  lemma {:induction false} TailsTracked(files: seq<string>, n: nat, s: string)
    requires n <= |files|
    ensures forall f | f in Tails(files, n, s) :: f in files
  {
    if n > 0 { TailsTracked(files, n - 1, s); }
  }

  lemma {:induction false} DenotesTracked(files: seq<string>, s: string)
    ensures forall f | f in Denotes(files, s) :: f in files
  {
    TailsTracked(files, |files|, s);
  }

  lemma {:induction false} ResolvesIff(files: seq<string>, content: map<string, string>, p: string)
    requires forall f | f in Denotes(files, p) :: f in content
    ensures var ds := Denotes(files, p);
            Resolves(files, content, p) <==> ds != [] && !(|ds| > 1 && Differ(ds, content))
  {
    hide Denotes;
    var ds := Denotes(files, p);
    if |ds| > 1 && !Differ(ds, content) {
      forall a, b | a in ds && b in ds ensures content[a] == content[b] {
        var i :| 0 <= i < |ds| && ds[i] == a;
        var j :| 0 <= j < |ds| && ds[j] == b;
        assert content[ds[i]] == content[ds[j]];
      }
    }
  }
}
