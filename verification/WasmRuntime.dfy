/** Which workspace crates the wasm crate reaches, and what they may ask of tokio. */
module WasmRuntime {
  import opened Options

  type Name = string

  /** What a non-dev tokio dependency asks for. */
  datatype Tokio = Tokio(features: set<string>, defaults: bool)

  /** A manifest: its non-dev dependency tables, target-scoped ones included. */
  datatype Manifest = Manifest(tables: seq<seq<Name>>, tokio: Option<Tokio>, library: bool)

  type Workspace = map<Name, Manifest>

  const ON_WASM: set<string> := {"sync", "macros", "io-util", "rt", "time"}

  // ----- Reachability

  predicate DependsOn(m: Manifest, x: Name) { exists i | 0 <= i < |m.tables| :: x in m.tables[i] }

  predicate Edge(crates: Workspace, y: Name, x: Name) { y in crates && x in crates && DependsOn(crates[y], x) }

  /** `x` is `n` dependency edges away from `start`. */
  ghost predicate StepsTo(crates: Workspace, start: Name, x: Name, n: nat)
    decreases n
  {
    if n == 0 then x == start else exists y :: StepsTo(crates, start, y, n - 1) && Edge(crates, y, x)
  }

  ghost predicate Reachable(crates: Workspace, start: Name, x: Name) { exists n: nat :: StepsTo(crates, start, x, n) }

  lemma {:induction false} ReachableStep(crates: Workspace, start: Name, y: Name, x: Name)
    requires Reachable(crates, start, y) && Edge(crates, y, x)
    ensures Reachable(crates, start, x)
  {
    var n: nat :| StepsTo(crates, start, y, n);
    assert StepsTo(crates, start, x, n + 1);
  }

  lemma {:induction false} ReachableStart(crates: Workspace, start: Name)
    ensures Reachable(crates, start, start)
  {
    assert StepsTo(crates, start, start, 0);
  }

  /** A set that holds the start and every successor holds everything reachable. */
  lemma {:induction false} ClosedHoldsAll(crates: Workspace, start: Name, s: set<Name>, x: Name, n: nat)
    requires start in s && forall y, z | y in s && Edge(crates, y, z) :: z in s
    requires StepsTo(crates, start, x, n)
    ensures x in s
    decreases n
  {
    if n > 0 {
      var y :| StepsTo(crates, start, y, n - 1) && Edge(crates, y, x);
      ClosedHoldsAll(crates, start, s, y, n - 1);
    }
  }

  // ----- The worklist

  /** Everything in `seen` is reachable, and waiting in `queue` or done: its successors seen too. */
  ghost predicate Exploring(crates: Workspace, start: Name, seen: set<Name>, queue: seq<Name>) {
    && start in seen && seen <= crates.Keys
    && (forall x | x in seen :: Reachable(crates, start, x))
    && (forall i | 0 <= i < |queue| :: queue[i] in seen)
    && (forall y, z | y in seen && y !in queue && Edge(crates, y, z) :: z in seen)
  }

  /** The successors of `y` in one table, taken in turn. */
  method Take(crates: Workspace, ghost start: Name, y: Name, table: seq<Name>, seen0: set<Name>, queue0: seq<Name>)
    returns (seen: set<Name>, queue: seq<Name>)
    requires y in crates && table in crates[y].tables && Reachable(crates, start, y)
    requires seen0 <= crates.Keys && forall x | x in seen0 :: Reachable(crates, start, x)
    requires forall i | 0 <= i < |queue0| :: queue0[i] in seen0
    ensures seen0 <= seen <= crates.Keys && queue0 <= queue
    ensures forall x | x in seen :: Reachable(crates, start, x)
    ensures forall x | x in seen :: x in seen0 || x in queue
    ensures forall i | 0 <= i < |queue| :: queue[i] in seen
    ensures forall x | x in table && x in crates :: x in seen
    ensures queue != queue0 ==> seen0 < seen
  {
    seen, queue := seen0, queue0;
    for i := 0 to |table|
      invariant seen0 <= seen <= crates.Keys && queue0 <= queue
      invariant forall x | x in seen :: Reachable(crates, start, x)
      invariant forall x | x in seen :: x in seen0 || x in queue
      invariant forall j | 0 <= j < |queue| :: queue[j] in seen
      invariant forall j | 0 <= j < i && table[j] in crates :: table[j] in seen
      invariant queue != queue0 ==> seen0 < seen
    {
      var name := table[i];
      if name in crates && name !in seen {
        var k :| 0 <= k < |crates[y].tables| && crates[y].tables[k] == table;
        assert name in crates[y].tables[k];
        assert Edge(crates, y, name);
        ReachableStep(crates, start, y, name);
        seen := seen + {name};
        queue := queue + [name];
      }
    }
  }

  /** Every table of one crate. */
  method Expand(crates: Workspace, ghost start: Name, y: Name, seen0: set<Name>, queue0: seq<Name>)
    returns (seen: set<Name>, queue: seq<Name>)
    requires y in crates && Reachable(crates, start, y)
    requires seen0 <= crates.Keys && forall x | x in seen0 :: Reachable(crates, start, x)
    requires forall i | 0 <= i < |queue0| :: queue0[i] in seen0
    ensures seen0 <= seen <= crates.Keys && queue0 <= queue
    ensures forall x | x in seen :: Reachable(crates, start, x)
    ensures forall x | x in seen :: x in seen0 || x in queue
    ensures forall i | 0 <= i < |queue| :: queue[i] in seen
    ensures forall z | Edge(crates, y, z) :: z in seen
    ensures queue != queue0 ==> seen0 < seen
  {
    seen, queue := seen0, queue0;
    var tables := crates[y].tables;
    for i := 0 to |tables|
      invariant seen0 <= seen <= crates.Keys && queue0 <= queue
      invariant forall x | x in seen :: Reachable(crates, start, x)
      invariant forall x | x in seen :: x in seen0 || x in queue
      invariant forall j | 0 <= j < |queue| :: queue[j] in seen
      invariant forall j, x | 0 <= j < i && x in tables[j] && x in crates :: x in seen
      invariant queue != queue0 ==> seen0 < seen
    {
      seen, queue := Take(crates, start, y, tables[i], seen, queue);
    }
  }

  /** `closure` ends on every workspace, cycles included, and returns exactly what is reachable. */
  method Closure(start: Name, crates: Workspace) returns (seen: set<Name>)
    requires start in crates
    ensures forall x :: x in seen <==> Reachable(crates, start, x)
  {
    var queue := [start];
    seen := {start};
    ReachableStart(crates, start);
    while queue != []
      invariant Exploring(crates, start, seen, queue)
      decreases crates.Keys - seen, |queue|
    {
      var y := queue[|queue| - 1];
      var rest := queue[..|queue| - 1];
      ghost var before := seen;
      var popped := queue;
      seen, queue := Expand(crates, start, y, seen, rest);
      if queue != rest { assert before < seen && crates.Keys - seen < crates.Keys - before; }
      forall u, z | u in seen && u !in queue && Edge(crates, u, z) ensures z in seen {
        if u != y {
          assert u in before;
          assert u !in popped by {
            assert popped == rest + [y];
            assert forall i | 0 <= i < |rest| :: rest[i] in queue by {
              assert forall i | 0 <= i < |rest| :: queue[i] == rest[i];
            }
          }
        }
      }
    }
    forall x | Reachable(crates, start, x) ensures x in seen {
      var n: nat :| StepsTo(crates, start, x, n);
      ClosedHoldsAll(crates, start, seen, x, n);
    }
  }

  // ----- The rules

  datatype Problem = Lonely | Defaults(name: Name) | Feature(name: Name, feature: string)
                   | Unexplained(name: Name) | GoneExemption(name: Name) | ReachedExemption(name: Name)

  predicate Portable(m: Manifest) { m.tokio.Some? ==> !m.tokio.value.defaults && m.tokio.value.features <= ON_WASM }

  predicate NeedsReason(m: Manifest) { m.library && m.tokio.Some? }

  method CheckReached(crates: Workspace, reached: set<Name>) returns (problems: seq<Problem>)
    requires reached <= crates.Keys
    ensures problems == [] <==> forall x | x in reached :: Portable(crates[x])
  {
    problems := [];
    var todo := reached;
    while todo != {}
      invariant todo <= reached
      invariant problems == [] <==> forall x | x in reached - todo :: Portable(crates[x])
    {
      var name :| name in todo;
      var asked := crates[name].tokio;
      if asked.Some? {
        if asked.value.defaults { problems := problems + [Defaults(name)]; }
        var extra := asked.value.features - ON_WASM;
        ghost var before := problems;
        ghost var all := extra;
        while extra != {}
          invariant extra <= all
          invariant problems == [] <==> before == [] && extra == all
        {
          var feature :| feature in extra;
          problems := problems + [Feature(name, feature)];
          extra := extra - {feature};
        }
      }
      todo := todo - {name};
    }
    assert reached - {} == reached;
  }

  method CheckOutside(crates: Workspace, reached: set<Name>, onPurpose: set<Name>) returns (problems: seq<Problem>)
    ensures problems == [] <==>
            (forall x | x in crates && x !in reached && NeedsReason(crates[x]) :: x in onPurpose)
            && forall x | x in onPurpose :: x in crates && x !in reached
  {
    problems := [];
    var todo := crates.Keys - reached;
    ghost var all := todo;
    while todo != {}
      invariant todo <= all
      invariant problems == [] <==> forall x | x in all - todo && NeedsReason(crates[x]) :: x in onPurpose
    {
      var name :| name in todo;
      if NeedsReason(crates[name]) && name !in onPurpose { problems := problems + [Unexplained(name)]; }
      todo := todo - {name};
    }
    assert all - {} == all;
    ghost var before := problems;
    todo := onPurpose;
    while todo != {}
      invariant todo <= onPurpose
      invariant problems == [] <==> before == [] && forall x | x in onPurpose - todo :: x in crates && x !in reached
    {
      var name :| name in todo;
      if name !in crates { problems := problems + [GoneExemption(name)]; }
      else if name in reached { problems := problems + [ReachedExemption(name)]; }
      todo := todo - {name};
    }
    assert onPurpose - {} == onPurpose;
  }

  /** `main`, past the check that the wasm crate exists: a clean run means that no crate it can
      reach takes tokio's defaults or a feature wasm lacks, that every other library with a
      runtime is explained, and that every explanation is of a crate it cannot reach. */
  method CheckRuntime(crates: Workspace, wasm: Name, onPurpose: set<Name>) returns (problems: seq<Problem>)
    requires wasm in crates
    ensures problems == [] <==>
            (exists x :: x != wasm && Reachable(crates, wasm, x))
            && (forall x | Reachable(crates, wasm, x) :: x in crates && (crates[x].tokio.Some? ==>
                  !crates[x].tokio.value.defaults && crates[x].tokio.value.features <= {"sync", "macros", "io-util", "rt", "time"}))
            && (forall x | x in crates && !Reachable(crates, wasm, x) && crates[x].library && crates[x].tokio.Some? :: x in onPurpose)
            && (forall x | x in onPurpose :: x in crates && !Reachable(crates, wasm, x))
  {
    var reached := Closure(wasm, crates);
    forall x | x in reached ensures x in crates { ReachableInWorkspace(crates, wasm, x); }
    ReachableStart(crates, wasm);
    var inside := CheckReached(crates, reached);
    var outside := CheckOutside(crates, reached, onPurpose);
    problems := (if |reached| < 2 then [Lonely] else []) + inside + outside;
    TwoOrMore(reached, wasm);
  }

  lemma {:induction false} ReachableInWorkspace(crates: Workspace, start: Name, x: Name)
    requires start in crates && Reachable(crates, start, x)
    ensures x in crates
  {
    var n: nat :| StepsTo(crates, start, x, n);
  }

  lemma {:induction false} TwoOrMore(s: set<Name>, a: Name)
    requires a in s
    ensures |s| < 2 <==> forall x | x in s :: x == a
  {
    if forall x | x in s :: x == a {
      assert s == {a};
    } else {
      var b :| b in s && b != a;
      assert b in s - {a} && |s| == |s - {a}| + 1;
    }
  }
}
