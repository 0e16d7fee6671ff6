/**
 * The workspace build planner: the dependency graph, the dependency-first
 * topological sort, the stage partitioner and the sequential stage driver
 * of `executeStages`, and the per-package outcome rule of `executeScript`.
 */
module Workspace {

  import opened Wrappers
  import opened Strings
  import opened Seqs

  /**
   * A workspace member. `scripts` is the manifest's script table and
   * `dependencies` the keys of its dependency object, in key order.
   */
  datatype Package = Package(
    name: string,
    path: string,
    scripts: map<string, string>,
    dependencies: seq<string>)

  /** Package name to its in-workspace dependency names (a JavaScript `Map`). */
  type Graph = map<string, seq<string>>

  // ---------------------------------------------------------------------------
  // Names and the package index

  /** The names of the packages, as a set (the keys of `new Map(packages.map(...))`). */
  function NameSet(pkgs: seq<Package>): (r: set<string>)
    ensures forall i :: 0 <= i < |pkgs| ==> pkgs[i].name in r
  {
    if pkgs == [] then {}
    else
      var init := NameSet(pkgs[..|pkgs| - 1]);
      assert forall i :: 0 <= i < |pkgs| - 1 ==> pkgs[..|pkgs| - 1][i] == pkgs[i];
      init + {pkgs[|pkgs| - 1].name}
  }

  /** Every name in the set is the name of some package. */
  lemma {:induction false} NameWitness(pkgs: seq<Package>, n: string) returns (i: nat)
    requires n in NameSet(pkgs)
    ensures i < |pkgs| && pkgs[i].name == n
  {
    var init := pkgs[..|pkgs| - 1];
    if pkgs[|pkgs| - 1].name == n {
      i := |pkgs| - 1;
    } else {
      i := NameWitness(init, n);
      assert pkgs[i] == init[i];
    }
  }

  /** No two packages share a name. */
  predicate UniqueNames(pkgs: seq<Package>) {
    forall i, j :: 0 <= i < j < |pkgs| ==> pkgs[i].name != pkgs[j].name
  }

  /** Leaving packages out of a list without repeated names keeps it without repeats. */
  lemma {:induction false} SubsequenceUniqueNames(a: seq<Package>, b: seq<Package>)
    requires IsSubsequence(a, b) && UniqueNames(b)
    ensures UniqueNames(a)
    decreases |b|
  {
    if a != [] {
      var a', b' := a[..|a| - 1], b[..|b| - 1];
      assert UniqueNames(b');
      if a[|a| - 1] == b[|b| - 1] {
        SubsequenceUniqueNames(a', b');
        forall i | 0 <= i < |a'| ensures a[i].name != a[|a| - 1].name {
          assert a'[i] in a';
          SubsequenceMembers(a', b', a'[i]);
          var m :| 0 <= m < |b'| && b'[m] == a'[i];
          assert b[m] == b'[m];
        }
      } else {
        SubsequenceUniqueNames(a, b');
      }
    }
  }

  lemma {:induction false} UniqueNamesCard(pkgs: seq<Package>)
    requires UniqueNames(pkgs)
    ensures |NameSet(pkgs)| == |pkgs|
  {
    if pkgs != [] {
      var init := pkgs[..|pkgs| - 1];
      UniqueNamesCard(init);
      NotInNameSet(init, pkgs[|pkgs| - 1].name);
    }
  }

  /** A name no package has is not in the set. */
  lemma {:induction false} NotInNameSet(pkgs: seq<Package>, n: string)
    requires forall i :: 0 <= i < |pkgs| ==> pkgs[i].name != n
    ensures n !in NameSet(pkgs)
  {
    if pkgs != [] {
      NotInNameSet(pkgs[..|pkgs| - 1], n);
    }
  }

  /**
   * The package a name stands for in `new Map(packages.map((p) => [p.name, p]))`:
   * when two packages share a name, the later one wins.
   */
  function LastNamed(pkgs: seq<Package>, n: string): (p: Package)
    requires n in NameSet(pkgs)
    ensures p in pkgs && p.name == n
  {
    var last := pkgs[|pkgs| - 1];
    if last.name == n then last
    else
      assert pkgs[..|pkgs| - 1] + [last] == pkgs;
      LastNamed(pkgs[..|pkgs| - 1], n)
  }

  /** With unique names, a name stands for the one package that has it. */
  lemma {:induction false} LastNamedUnique(pkgs: seq<Package>, i: nat)
    requires UniqueNames(pkgs) && i < |pkgs|
    ensures LastNamed(pkgs, pkgs[i].name) == pkgs[i]
  {
    if i < |pkgs| - 1 {
      LastNamedUnique(pkgs[..|pkgs| - 1], i);
    }
  }

  lemma LastNamedSnoc(pkgs: seq<Package>, p: Package, n: string)
    requires n in NameSet(pkgs + [p])
    ensures n == p.name ==> LastNamed(pkgs + [p], n) == p
    ensures n != p.name ==> n in NameSet(pkgs) && LastNamed(pkgs + [p], n) == LastNamed(pkgs, n)
  {
    assert (pkgs + [p])[..|pkgs|] == pkgs;
  }

  /** The package index `packageMap` of `topologicalSortPackages`. */
  function PackageIndex(pkgs: seq<Package>): (index: map<string, Package>)
    ensures index.Keys == NameSet(pkgs)
    ensures forall n :: n in index ==> index[n] == LastNamed(pkgs, n)
  {
    map n | n in NameSet(pkgs) :: LastNamed(pkgs, n)
  }

  // ---------------------------------------------------------------------------
  // Dependency graph

  /** `deps.filter((depName) => packageMap.has(depName))` */
  function InWorkspace(deps: seq<string>, names: set<string>): (r: seq<string>)
    ensures forall d :: d in r <==> d in deps && d in names
    ensures |r| <= |deps|
  {
    if deps == [] then []
    else
      var init := InWorkspace(deps[..|deps| - 1], names);
      var last := deps[|deps| - 1];
      assert deps == deps[..|deps| - 1] + [last];
      init + (if last in names then [last] else [])
  }

  /** The filter keeps the declared order. */
  lemma {:induction false} InWorkspaceKeepsOrder(deps: seq<string>, names: set<string>)
    ensures IsSubsequence(InWorkspace(deps, names), deps)
  {
    if deps != [] {
      var init := deps[..|deps| - 1];
      var last := deps[|deps| - 1];
      InWorkspaceKeepsOrder(init, names);
      assert deps == init + [last];
      var kept := InWorkspace(init, names);
      if last in names {
        SubsequenceKeep(kept, init, last);
      } else {
        assert InWorkspace(deps, names) == kept + [] == kept;
        SubsequenceSkip(kept, init, last);
      }
    }
  }

  /**
   * The dependency graph as a declarative definition: one entry per package
   * name, holding the in-workspace dependencies of the package that name
   * stands for.
   */
  function WorkspaceGraph(pkgs: seq<Package>): Graph {
    map n | n in NameSet(pkgs) :: InWorkspace(LastNamed(pkgs, n).dependencies, NameSet(pkgs))
  }

  /** `dependencyGraph.get(name) ?? []` */
  function DepsOf(g: Graph, n: string): seq<string> {
    if n in g then g[n] else []
  }

  /** The graph's entries are exactly `names`, and every edge stays inside them. */
  ghost predicate GraphOver(g: Graph, names: set<string>) {
    && g.Keys == names
    && forall n, d :: n in g && d in g[n] ==> d in names
  }

  /** The graph built from the packages seen so far, looking names up in `names`. */
  function PartialGraph(pkgs: seq<Package>, names: set<string>): Graph {
    map n | n in NameSet(pkgs) :: InWorkspace(LastNamed(pkgs, n).dependencies, names)
  }

  lemma PartialGraphSnocAt(pkgs: seq<Package>, p: Package, names: set<string>, n: string)
    requires n in NameSet(pkgs + [p])
    ensures n in PartialGraph(pkgs, names)[p.name := InWorkspace(p.dependencies, names)]
    ensures PartialGraph(pkgs + [p], names)[n]
         == PartialGraph(pkgs, names)[p.name := InWorkspace(p.dependencies, names)][n]
  {
    LastNamedSnoc(pkgs, p, n);
  }

  /** One more package sets (or overwrites) its own entry and nothing else. */
  lemma PartialGraphSnoc(pkgs: seq<Package>, p: Package, names: set<string>)
    ensures PartialGraph(pkgs + [p], names)
         == PartialGraph(pkgs, names)[p.name := InWorkspace(p.dependencies, names)]
  {
    var ext := pkgs + [p];
    assert NameSet(ext) == NameSet(pkgs) + {p.name};
    var lhs := PartialGraph(ext, names);
    var rhs := PartialGraph(pkgs, names)[p.name := InWorkspace(p.dependencies, names)];
    assert lhs.Keys == rhs.Keys;
    forall n | n in lhs.Keys ensures lhs[n] == rhs[n] {
      PartialGraphSnocAt(pkgs, p, names, n);
    }
    assert lhs == rhs;
  }

  /** `buildDependencyGraph`: fills the map package by package. */
  method BuildDependencyGraph(packages: seq<Package>) returns (graph: Graph)
    ensures graph == WorkspaceGraph(packages)
  {
    var names := NameSet(packages);
    graph := map[];
    for i := 0 to |packages|
      invariant graph == PartialGraph(packages[..i], names)
    {
      var pkg := packages[i];
      assert packages[..i + 1] == packages[..i] + [pkg];
      PartialGraphSnoc(packages[..i], pkg, names);
      graph := graph[pkg.name := InWorkspace(pkg.dependencies, names)];
    }
    assert packages[..|packages|] == packages;
  }

  /**
   * The graph has one entry per package name, every edge leads to a package
   * name, and with unique names each entry is exactly that package's declared
   * dependencies that are workspace packages.
   */
  lemma WorkspaceGraphShape(pkgs: seq<Package>)
    ensures GraphOver(WorkspaceGraph(pkgs), NameSet(pkgs))
    ensures UniqueNames(pkgs) ==>
      forall i :: 0 <= i < |pkgs| ==>
        WorkspaceGraph(pkgs)[pkgs[i].name] == InWorkspace(pkgs[i].dependencies, NameSet(pkgs))
  {
    if UniqueNames(pkgs) {
      forall i | 0 <= i < |pkgs|
        ensures WorkspaceGraph(pkgs)[pkgs[i].name] == InWorkspace(pkgs[i].dependencies, NameSet(pkgs))
      {
        LastNamedUnique(pkgs, i);
      }
    }
  }

  // ---------------------------------------------------------------------------
  // Paths and cycles

  /** Each element of `p` is a dependency of the one before it. */
  ghost predicate IsPath(g: Graph, p: seq<string>) {
    forall i :: 0 <= i < |p| - 1 ==> p[i + 1] in DepsOf(g, p[i])
  }

  /** Some package depends, directly or through others, on itself. */
  ghost predicate HasCycle(g: Graph) {
    exists p :: IsPath(g, p) && |p| >= 2 && p[0] == p[|p| - 1]
  }

  lemma PathSlice(g: Graph, p: seq<string>, i: nat, j: nat)
    requires IsPath(g, p) && i <= j <= |p|
    ensures IsPath(g, p[i..j])
  {
    var q := p[i..j];
    forall k | 0 <= k < |q| - 1 ensures q[k + 1] in DepsOf(g, q[k]) {
      assert q[k] == p[i + k] && q[k + 1] == p[i + k + 1];
    }
  }

  lemma PathExtend(g: Graph, p: seq<string>, d: string)
    requires IsPath(g, p) && p != [] && d in DepsOf(g, p[|p| - 1])
    ensures IsPath(g, p + [d])
  {
    var q := p + [d];
    forall i | 0 <= i < |q| - 1 ensures q[i + 1] in DepsOf(g, q[i]) {
      if i < |p| - 1 {
        assert q[i] == p[i] && q[i + 1] == p[i + 1];
      }
    }
  }

  /** A path that leads back to one of its own elements closes a cycle. */
  lemma CycleFromPath(g: Graph, p: seq<string>, d: string)
    requires IsPath(g, p) && p != [] && d in DepsOf(g, p[|p| - 1]) && d in p
    ensures HasCycle(g)
  {
    var k :| 0 <= k < |p| && p[k] == d;
    PathSlice(g, p, k, |p|);
    var c := p[k..];
    PathExtend(g, c, d);
    var cyc := c + [d];
    assert cyc[0] == d && cyc[|cyc| - 1] == d;
  }

  // ---------------------------------------------------------------------------
  // Topological sort

  /** Every dependency of a name in `order` occurs earlier in `order`. */
  ghost predicate DepsBefore(g: Graph, order: seq<string>) {
    forall i, d :: 0 <= i < |order| && d in DepsOf(g, order[i]) ==> d in order[..i]
  }

  /**
   * The state of the traversal: `visited` holds the finished names (`result`,
   * without repeats) and the chain `stack` of visits still running; when the
   * graph is acyclic, every finished name comes after its dependencies.
   */
  ghost predicate Traversal(graph: Graph, stack: seq<string>, visited: set<string>, result: seq<string>) {
    && visited <= graph.Keys
    && NoDup(stack) && NoDup(result)
    && visited == Elems(result) + Elems(stack)
    && Elems(result) !! Elems(stack)
    && (!HasCycle(graph) ==> DepsBefore(graph, result))
  }

  /** Marking a name visited pushes it on the chain of running visits. */
  lemma EnterVisit(graph: Graph, stack: seq<string>, name: string, visited: set<string>, result: seq<string>)
    requires Traversal(graph, stack, visited, result) && name in graph && name !in visited
    ensures Traversal(graph, stack + [name], visited + {name}, result)
  {
    var inner := stack + [name];
    assert Elems(inner) == Elems(stack) + {name};
    forall i, j | 0 <= i < j < |inner| ensures inner[i] != inner[j] {
      if j == |inner| - 1 {
        assert inner[i] in Elems(stack);
      }
    }
  }

  /**
   * Finishing a visit once all its dependencies are visited: the name moves
   * from the chain to the result. A dependency that is still on the chain
   * would close a cycle, so with an acyclic graph they are all finished.
   */
  lemma LeaveVisit(graph: Graph, stack: seq<string>, name: string, visited: set<string>, result: seq<string>)
    requires Traversal(graph, stack + [name], visited, result)
    requires IsPath(graph, stack + [name])
    requires forall d :: d in DepsOf(graph, name) ==> d in visited
    ensures Traversal(graph, stack, visited, result + [name])
  {
    var inner := stack + [name];
    var result' := result + [name];
    assert name in Elems(inner);
    assert Elems(inner) == Elems(stack) + {name};
    assert name !in stack by {
      assert inner[|inner| - 1] == name;
      forall i | 0 <= i < |stack| ensures stack[i] != name {
        assert inner[i] == stack[i];
      }
    }
    assert Elems(result') == Elems(result) + {name};
    forall i, j | 0 <= i < j < |result'| ensures result'[i] != result'[j] {
      if j == |result| {
        assert result'[i] in Elems(result);
      }
    }
    assert forall i :: 0 <= i < |stack| ==> stack[i] == inner[i];
    if !HasCycle(graph) {
      forall i, d | 0 <= i < |result'| && d in DepsOf(graph, result'[i]) ensures d in result'[..i] {
        if i < |result| {
          assert result'[..i] == result[..i];
        } else {
          assert result'[..i] == result;
          if d !in result {
            CycleFromPath(graph, inner, d);
          }
        }
      }
    }
  }

  /**
   * The recursive `visit` of `topologicalSortPackages`. The closure's mutable
   * `mut_visited` and `mut_result` are passed in and handed back; `stack` is
   * the chain of names whose visit is still running (ghost: the source keeps
   * it only implicitly, on the call stack).
   */
  method Visit(graph: Graph, name: string, ghost stack: seq<string>,
               visited: set<string>, result: seq<string>)
    returns (visited': set<string>, result': seq<string>)
    requires forall n, d :: n in graph && d in graph[n] ==> d in graph
    requires name in graph
    requires IsPath(graph, stack + [name])
    requires Traversal(graph, stack, visited, result)
    ensures visited <= visited' && name in visited'
    ensures result <= result'
    ensures Traversal(graph, stack, visited', result')
    decreases graph.Keys - visited
  {
    if name in visited {
      return visited, result;
    }
    ghost var inner := stack + [name];
    assert Traversal(graph, inner, visited + {name}, result) by {
      EnterVisit(graph, stack, name, visited, result);
    }
    visited', result' := visited + {name}, result;
    var deps := DepsOf(graph, name);
    for j := 0 to |deps|
      invariant visited + {name} <= visited'
      invariant result <= result'
      invariant Traversal(graph, inner, visited', result')
      invariant forall k :: 0 <= k < j ==> deps[k] in visited'
    {
      assert IsPath(graph, inner + [deps[j]]) by { PathExtend(graph, inner, deps[j]); }
      ghost var before := visited';
      visited', result' := Visit(graph, deps[j], inner, visited', result');
      forall k | 0 <= k <= j ensures deps[k] in visited' {
        if k < j {
          assert deps[k] in before;
        }
      }
    }
    assert Traversal(graph, stack, visited', result' + [name]) by {
      LeaveVisit(graph, stack, name, visited', result');
    }
    result' := result' + [name];
  }

  /**
   * `topologicalSortPackages`: visits every package in input order and maps
   * the visited names back to packages through the package index.
   */
  method TopologicalSort(packages: seq<Package>, graph: Graph) returns (sorted: seq<Package>)
    requires graph.Keys == NameSet(packages)
    requires forall n, d :: n in graph && d in graph[n] ==> d in graph
    ensures UniqueNames(sorted)
    ensures NameSet(sorted) == NameSet(packages)
    ensures forall i :: 0 <= i < |sorted| ==> sorted[i] == LastNamed(packages, sorted[i].name)
    ensures !HasCycle(graph) ==>
      forall i, d :: 0 <= i < |sorted| && d in DepsOf(graph, sorted[i].name) ==> d in NameSet(sorted[..i])
  {
    var visited: set<string> := {};
    var order: seq<string> := [];
    for i := 0 to |packages|
      invariant Traversal(graph, [], visited, order)
      invariant forall k :: 0 <= k < i ==> packages[k].name in visited
    {
      var name := packages[i].name;
      assert name in graph && IsPath(graph, [] + [name]) by {
        assert [] + [name] == [name];
      }
      ghost var before := visited;
      visited, order := Visit(graph, name, [], visited, order);
      forall k | 0 <= k <= i ensures packages[k].name in visited {
        if k < i {
          assert packages[k].name in before;
        }
      }
    }
    sorted := Resolve(order, PackageIndex(packages));
    ResolvedOrder(packages, graph, visited, order, sorted);
  }

  /** What the final mapping of visited names back to packages yields. */
  lemma ResolvedOrder(packages: seq<Package>, graph: Graph, visited: set<string>, order: seq<string>,
                      sorted: seq<Package>)
    requires graph.Keys == NameSet(packages)
    requires Traversal(graph, [], visited, order)
    requires forall k :: 0 <= k < |packages| ==> packages[k].name in visited
    requires sorted == Resolve(order, PackageIndex(packages))
    ensures UniqueNames(sorted)
    ensures NameSet(sorted) == NameSet(packages)
    ensures forall i :: 0 <= i < |sorted| ==> sorted[i] == LastNamed(packages, sorted[i].name)
    ensures !HasCycle(graph) ==>
      forall i, d :: 0 <= i < |sorted| && d in DepsOf(graph, sorted[i].name) ==> d in NameSet(sorted[..i])
  {
    assert Elems(order) == NameSet(packages) && NoDup(order) by {
      FinishedOrder(packages, graph, visited, order);
    }
    ResolvedNames(packages, order, sorted);
    if !HasCycle(graph) {
      OrderedNames(graph, sorted, order);
    }
  }

  /** Once every package was visited from an empty chain, the result lists each name once. */
  lemma FinishedOrder(packages: seq<Package>, graph: Graph, visited: set<string>, order: seq<string>)
    requires graph.Keys == NameSet(packages)
    requires Traversal(graph, [], visited, order)
    requires forall k :: 0 <= k < |packages| ==> packages[k].name in visited
    ensures Elems(order) == NameSet(packages) && NoDup(order)
  {
    assert Elems(order) == visited by {
      assert Elems<string>([]) == {};
    }
    forall n | n in NameSet(packages) ensures n in visited {
      var k := NameWitness(packages, n);
    }
  }

  lemma ResolvedNames(packages: seq<Package>, order: seq<string>, sorted: seq<Package>)
    requires Elems(order) == NameSet(packages) && NoDup(order)
    requires sorted == Resolve(order, PackageIndex(packages))
    ensures |sorted| == |order|
    ensures forall i :: 0 <= i < |sorted| ==> sorted[i].name == order[i] && sorted[i] == LastNamed(packages, order[i])
    ensures UniqueNames(sorted) && NameSet(sorted) == NameSet(packages)
  {
    var index := PackageIndex(packages);
    assert forall n :: n in order ==> n in index by {
      forall n | n in order ensures n in index {
        assert n in Elems(order);
      }
    }
    assert |sorted| == |order|;
    forall i | 0 <= i < |sorted| ensures sorted[i].name == order[i] && sorted[i] == LastNamed(packages, order[i]) {
      assert sorted[i] == index[order[i]];
    }
    NamesOfOrder(sorted, order);
  }

  /** Packages named after a duplicate-free list of names have unique names and exactly those names. */
  lemma NamesOfOrder(sorted: seq<Package>, order: seq<string>)
    requires |sorted| == |order| && NoDup(order)
    requires forall i :: 0 <= i < |sorted| ==> sorted[i].name == order[i]
    ensures UniqueNames(sorted) && NameSet(sorted) == Elems(order)
  {
    forall i, j | 0 <= i < j < |sorted| ensures sorted[i].name != sorted[j].name {
      assert order[i] != order[j];
    }
    forall n | n in NameSet(sorted) ensures n in Elems(order) {
      var i := NameWitness(sorted, n);
      assert order[i] in order;
    }
    forall n | n in Elems(order) ensures n in NameSet(sorted) {
      var i :| 0 <= i < |order| && order[i] == n;
      assert sorted[i].name == n;
    }
  }

  /** Packages listed in an order where dependencies come first keep that property. */
  lemma OrderedNames(graph: Graph, sorted: seq<Package>, order: seq<string>)
    requires |sorted| == |order|
    requires forall i :: 0 <= i < |sorted| ==> sorted[i].name == order[i]
    requires DepsBefore(graph, order)
    ensures forall i, d :: 0 <= i < |sorted| && d in DepsOf(graph, sorted[i].name) ==> d in NameSet(sorted[..i])
  {
    forall i, d | 0 <= i < |sorted| && d in DepsOf(graph, sorted[i].name)
      ensures d in NameSet(sorted[..i])
    {
      assert d in order[..i];
      var k :| 0 <= k < i && order[k] == d;
      assert sorted[..i][k].name == d;
    }
  }

  /** `names.map((n) => index.get(n)).filter(isNotUndefined)` */
  function Resolve(names: seq<string>, index: map<string, Package>): (r: seq<Package>)
    ensures (forall n :: n in names ==> n in index) ==>
      |r| == |names| && forall i :: 0 <= i < |names| ==> r[i] == index[names[i]]
  {
    if names == [] then []
    else (if names[0] in index then [index[names[0]]] else []) + Resolve(names[1..], index)
  }

  /** With unique input names, the sorted list holds every input package exactly once. */
  lemma SortedIsPermutation(packages: seq<Package>, sorted: seq<Package>)
    requires UniqueNames(packages) && UniqueNames(sorted)
    requires NameSet(sorted) == NameSet(packages)
    requires forall i :: 0 <= i < |sorted| ==> sorted[i] == LastNamed(packages, sorted[i].name)
    ensures |sorted| == |packages|
    ensures forall p :: p in packages <==> p in sorted
  {
    UniqueNamesCard(packages);
    UniqueNamesCard(sorted);
    forall p | p in packages ensures p in sorted {
      var k :| 0 <= k < |packages| && packages[k] == p;
      LastNamedUnique(packages, k);
      var i := NameWitness(sorted, p.name);
    }
  }
}
