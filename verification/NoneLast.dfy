/** `None` goes last in a union: the outermost-only filter loses no finding. */
module NoneLast {

  /** An expression, as far as this walk can tell: a `|`, the constant `None`, or a node of any
      other kind with its children. A path names a node by the way to it. */
  datatype Expr = Or(left: Expr, right: Expr) | NoneConst | Node(kind: int, children: seq<Expr>)

  datatype Turn = Left | Right | Child(i: nat)

  type Path = seq<Turn>

  /** `operands`: a `|` chain flattened, left to right. */
  function Operands(e: Expr): (r: seq<Expr>)
    ensures |r| > 0
  {
    if e.Or? then Operands(e.left) + Operands(e.right) else [e]
  }

  predicate Offends(e: Expr) {
    e.Or? && var parts := Operands(e); exists i | 0 <= i < |parts| - 1 :: parts[i].NoneConst?
  }

  function Down(e: Expr, t: Turn): Expr
    requires CanGo(e, t)
  {
    match t
    case Left => e.left
    case Right => e.right
    case Child(i) => e.children[i]
  }

  predicate CanGo(e: Expr, t: Turn) {
    match t
    case Left => e.Or?
    case Right => e.Or?
    case Child(i) => e.Node? && i < |e.children|
  }

  /** The path stays inside the tree. */
  predicate Valid(e: Expr, p: Path) { p == [] || (CanGo(e, p[0]) && Valid(Down(e, p[0]), p[1..])) }

  function At(e: Expr, p: Path): Expr
    requires Valid(e, p)
  {
    if p == [] then e else At(Down(e, p[0]), p[1..])
  }

  /** The path leads to a union with `None` before its end. */
  predicate OffendsAt(e: Expr, p: Path) { Valid(e, p) && Offends(At(e, p)) }

  /** `_nested`: the node is the left arm of a wider `|`. */
  predicate Nested(p: Path) { p != [] && p[|p| - 1].Left? }

  // ----- Climbing the left spine

  lemma {:induction false} UpOne(e: Expr, p: Path)
    requires Valid(e, p) && p != []
    ensures Valid(e, p[..|p| - 1]) && CanGo(At(e, p[..|p| - 1]), p[|p| - 1])
    ensures At(e, p) == Down(At(e, p[..|p| - 1]), p[|p| - 1])
    decreases |p|
  {
    if |p| > 1 {
      UpOne(Down(e, p[0]), p[1..]);
      assert p[..|p| - 1][1..] == p[1..][..|p| - 2];
    } else {
      assert p[..0] == [] && p[1..] == [];
    }
  }

  /** A union that has an offending left arm offends itself. */
  lemma {:induction false} LeftArmOffends(e: Expr)
    requires e.Or? && Offends(e.left)
    ensures Offends(e)
  {
    var parts, inner := Operands(e), Operands(e.left);
    var i :| 0 <= i < |inner| - 1 && inner[i].NoneConst?;
    assert parts[i] == inner[i];
  }

  /** From any offender the climb ends at one that no wider `|` holds on its left. */
  lemma {:induction false} OutermostOffender(e: Expr, p: Path) returns (q: Path)
    requires OffendsAt(e, p)
    ensures q <= p && OffendsAt(e, q) && !Nested(q)
    decreases |p|
  {
    q := p;
    if Nested(p) {
      UpOne(e, p);
      LeftArmOffends(At(e, p[..|p| - 1]));
      q := OutermostOffender(e, p[..|p| - 1]);
    }
  }

  // ----- The walk

  /** Every node of `e`, by path, in some order: `ast.walk`. */
  function Walk(e: Expr): seq<Path> {
    match e
    case Or(l, r) => [[]] + Prefixed(Left, Walk(l)) + Prefixed(Right, Walk(r))
    case NoneConst => [[]]
    case Node(_, cs) => [[]] + WalkAll(cs, |cs|)
  }

  function WalkAll(cs: seq<Expr>, n: nat): seq<Path>
    requires n <= |cs|
    decreases cs, n
  {
    if n == 0 then [] else WalkAll(cs, n - 1) + Prefixed(Child(n - 1), Walk(cs[n - 1]))
  }

  function Prefixed(t: Turn, ps: seq<Path>): (r: seq<Path>)
    ensures |r| == |ps| && forall i | 0 <= i < |ps| :: r[i] == [t] + ps[i]
  {
    seq(|ps|, i requires 0 <= i < |ps| => [t] + ps[i])
  }

  lemma {:induction false} PrefixedMember(t: Turn, ps: seq<Path>, p: Path)
    ensures p in Prefixed(t, ps) <==> p != [] && p[0] == t && p[1..] in ps
  {
    if p in Prefixed(t, ps) {
      var i :| 0 <= i < |ps| && Prefixed(t, ps)[i] == p;
      assert ([t] + ps[i])[1..] == ps[i];
    }
    if p != [] && p[0] == t && p[1..] in ps {
      var i :| 0 <= i < |ps| && ps[i] == p[1..];
      assert p == [t] + ps[i] == Prefixed(t, ps)[i];
    }
  }

  /** The walk meets every node, and nothing else. */
  lemma {:induction false} WalkMeetsAll(e: Expr, p: Path)
    ensures p in Walk(e) <==> Valid(e, p)
    decreases e, 1
  {
    match e
    case NoneConst =>
    case Or(l, r) =>
      PrefixedMember(Left, Walk(l), p);
      PrefixedMember(Right, Walk(r), p);
      if p != [] {
        WalkMeetsAll(l, p[1..]);
        WalkMeetsAll(r, p[1..]);
      }
    case Node(_, cs) =>
      WalkAllMeets(cs, |cs|, p);
  }

  lemma {:induction false} WalkAllMeets(cs: seq<Expr>, n: nat, p: Path)
    requires n <= |cs|
    ensures p in WalkAll(cs, n) <==> p != [] && p[0].Child? && p[0].i < n && Valid(cs[p[0].i], p[1..])
    decreases cs, 0, n
  {
    if n > 0 {
      WalkAllMeets(cs, n - 1, p);
      PrefixedMember(Child(n - 1), Walk(cs[n - 1]), p);
      if p != [] { WalkMeetsAll(cs[n - 1], p[1..]); }
    }
  }

  /** The node at `q` is a `|` whose left arm is the node at `p`. */
  predicate HoldsOnLeft(e: Expr, q: Path, p: Path) { Valid(e, q) && At(e, q).Or? && q + [Left] == p }

  lemma {:induction false} HolderIsParent(e: Expr, q: Path, p: Path)
    requires Valid(e, p)
    ensures HoldsOnLeft(e, q, p) <==> Nested(p) && q == p[..|p| - 1]
  {
    if Nested(p) && q == p[..|p| - 1] { UpOne(e, p); }
  }

  /** `_nested` searches the whole tree for such a node, and so finds just the parent. */
  method IsNested(e: Expr, p: Path) returns (nested: bool)
    requires Valid(e, p)
    ensures nested <==> Nested(p)
  {
    hide Walk, Valid, HoldsOnLeft;
    var nodes := Walk(e);
    for i := 0 to |nodes|
      invariant forall j | 0 <= j < i :: !HoldsOnLeft(e, nodes[j], p)
    {
      if HoldsOnLeft(e, nodes[i], p) {
        HolderIsParent(e, nodes[i], p);
        return true;
      }
    }
    if Nested(p) {
      UpOne(e, p);
      WalkMeetsAll(e, p[..|p| - 1]);
      HolderIsParent(e, p[..|p| - 1], p);
    }
    return false;
  }

  /** A union the walk reports. */
  predicate Reported(e: Expr, p: Path) { OffendsAt(e, p) && !Nested(p) }

  lemma {:induction false} ReportedIsNode(e: Expr, p: Path)
    requires Reported(e, p)
    ensures p in Walk(e)
  {
    WalkMeetsAll(e, p);
  }

  /** Some union is reported exactly when some union offends. */
  lemma {:induction false} SomeReportedIff(e: Expr)
    ensures (exists p :: Reported(e, p)) <==> exists p :: OffendsAt(e, p)
  {
    if p :| Reported(e, p) {
      assert OffendsAt(e, p);
    }
    if p :| OffendsAt(e, p) {
      var q := OutermostOffender(e, p);
      assert Reported(e, q);
    }
  }

  /** `offenders`: the outermost offending unions. It finds one exactly when some union anywhere
      in the tree has `None` before its end. */
  method Offenders(e: Expr) returns (found: seq<Path>)
    ensures forall p :: p in found <==> Reported(e, p)
    ensures found != [] <==> exists p :: OffendsAt(e, p)
  {
    SomeReportedIff(e);
    hide Walk, OffendsAt, Valid, Nested;
    found := [];
    var nodes := Walk(e);
    for i := 0 to |nodes|
      invariant forall p | p in found :: Reported(e, p)
      invariant forall j | 0 <= j < i && Reported(e, nodes[j]) :: nodes[j] in found
    {
      WalkMeetsAll(e, nodes[i]);
      if OffendsAt(e, nodes[i]) {
        var nested := IsNested(e, nodes[i]);
        if !nested { found := found + [nodes[i]]; }
      }
    }
    forall p | Reported(e, p) ensures p in found { ReportedIsNode(e, p); }
    if found != [] { assert Reported(e, found[0]); }
  }

  /** The filter looks at left arms only. So a union on the right of another is reported just if it
      offends; and the other one then offends as well, so that both are, unless that one is itself a
      left arm. */
  lemma {:induction false} RightArmReported(e: Expr, p: Path)
    requires Valid(e, p) && At(e, p).Or?
    ensures Reported(e, p + [Right]) <==> Offends(At(e, p).right)
    ensures Reported(e, p + [Right]) ==> OffendsAt(e, p) && (Reported(e, p) <==> !Nested(p))
  {
    RightArm(e, p);
    var u := At(e, p);
    if Offends(u.right) {
      var parts, inner := Operands(u), Operands(u.right);
      var i :| 0 <= i < |inner| - 1 && inner[i].NoneConst?;
      assert parts[|parts| - |inner| + i] == inner[i];
    }
  }

  lemma {:induction false} RightArm(e: Expr, p: Path)
    requires Valid(e, p) && At(e, p).Or?
    ensures Valid(e, p + [Right]) && At(e, p + [Right]) == At(e, p).right
    decreases |p|
  {
    if p == [] {
      assert p + [Right] == [Right] && [Right][1..] == [];
    } else {
      RightArm(Down(e, p[0]), p[1..]);
      assert (p + [Right])[1..] == p[1..] + [Right];
    }
  }
}
