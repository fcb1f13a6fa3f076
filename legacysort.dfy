/**
  The graph half of the older standalone libshelper.py: `DepGraph.create`,
  which records each root library and its direct dependencies, and
  `compute_dependencies`, which orders the libraries of that graph by
  repeatedly emitting a node nothing left depends on and unlinking it from
  its dependencies. The graph class is the one of graphs.py: the standalone
  script's `DepGraph` and `DepGraphNode` have the same `get_node`,
  `add_dependency`, `remove_dependency` and `is_root`.
 */
module LegacySort {
  import opened Options
  import opened Collections
  import opened Graphs
  import Legacy
  import LibsHelper

  // ---------------------------------------------------------------------
  // DepGraph.create
  // ---------------------------------------------------------------------

  /** The libraries `create` goes through: the roots given, or every library of the cache when there are none. */
  function RootSet(deps: map<string, set<string>>, roots: seq<string>): (r: set<string>)
    ensures roots != [] ==> forall x :: x in r <==> x in roots
    ensures roots == [] ==> r == deps.Keys
  {
    if roots == [] then deps.Keys else set x | x in roots
  }

  /** The edges `create` records: from each root to each of its direct dependencies other than itself. */
  function CreateEdges(deps: map<string, set<string>>, roots: set<string>): (r: set<(string, string)>)
    ensures forall a, b :: (a, b) in r <==> a in roots && b in Legacy.SetOf(deps, a) && b != a
  {
    set a, b | a in roots && b in Legacy.SetOf(deps, a) && b != a :: (a, b)
  }

  /** The nodes `create` makes: the roots and their direct dependencies. */
  function CreateVertices(deps: map<string, set<string>>, roots: set<string>): (r: set<string>)
    ensures forall x :: x in r <==> x in roots || exists a :: a in roots && x in Legacy.SetOf(deps, a)
  {
    roots + set a, b | a in roots && b in Legacy.SetOf(deps, a) :: b
  }

  lemma CreateSpans(deps: map<string, set<string>>, roots: set<string>)
    ensures Spans(CreateVertices(deps, roots), CreateEdges(deps, roots))
  {
  }

  /** Going through one more root adds it, its dependencies and its edges. */
  lemma CreateStep(vertices: set<string>, edges: set<(string, string)>,
                   deps: map<string, set<string>>, done: set<string>, lib: string)
    ensures (vertices + CreateVertices(deps, done)) + {lib} + Legacy.SetOf(deps, lib)
            == vertices + CreateVertices(deps, done + {lib})
    ensures (edges + CreateEdges(deps, done)) + Fan(lib, Legacy.SetOf(deps, lib) - {lib})
            == edges + CreateEdges(deps, done + {lib})
  {
    var v1 := (vertices + CreateVertices(deps, done)) + {lib} + Legacy.SetOf(deps, lib);
    var v2 := vertices + CreateVertices(deps, done + {lib});
    forall x | x in v2
      ensures x in v1
    {
      if x !in vertices && x !in done + {lib} {
        var a :| a in done + {lib} && x in Legacy.SetOf(deps, a);
      }
    }
  }

  /**
    `create`: every root gets a node, and an edge to each of its direct
    dependencies other than itself; the graph keeps what it held.
   */
  method Create(graph: DepGraph, cache: Legacy.Cache, roots: seq<string>,
                ghost vertices: set<string>, ghost edges: set<(string, string)>)
    requires Spans(vertices, edges) && graph.nodes == Build(vertices, edges)
    modifies graph
    ensures Spans(vertices + CreateVertices(cache.dependencies, RootSet(cache.dependencies, roots)),
                  edges + CreateEdges(cache.dependencies, RootSet(cache.dependencies, roots)))
    ensures graph.nodes == Build(vertices + CreateVertices(cache.dependencies, RootSet(cache.dependencies, roots)),
                                 edges + CreateEdges(cache.dependencies, RootSet(cache.dependencies, roots)))
  {
    var libs := roots;
    if |roots| == 0 {
      libs := Enumerate(cache.dependencies.Keys);
    }
    ghost var deps := cache.dependencies;
    ghost var done: set<string> := {};
    CreateNone(vertices, edges, deps);
    for i := 0 to |libs|
      invariant forall x :: x in done <==> x in libs[..i]
      invariant Spans(vertices + CreateVertices(deps, done), edges + CreateEdges(deps, done))
      invariant graph.nodes == Build(vertices + CreateVertices(deps, done), edges + CreateEdges(deps, done))
    {
      CreateOne(graph, cache, libs[i], vertices, edges, deps, done);
      done := done + {libs[i]};
      LibsHelper.PrefixStep(libs, i);
    }
    assert libs[..|libs|] == libs;
    assert done == RootSet(deps, roots);
  }

  lemma CreateNone(vertices: set<string>, edges: set<(string, string)>, deps: map<string, set<string>>)
    ensures vertices + CreateVertices(deps, {}) == vertices && edges + CreateEdges(deps, {}) == edges
  {
  }

  /** One turn of the `for lib in roots` loop of `create`. */
  method CreateOne(graph: DepGraph, cache: Legacy.Cache, lib: string,
                   ghost vertices: set<string>, ghost edges: set<(string, string)>,
                   ghost deps: map<string, set<string>>, ghost done: set<string>)
    requires deps == cache.dependencies
    requires Spans(vertices + CreateVertices(deps, done), edges + CreateEdges(deps, done))
    requires graph.nodes == Build(vertices + CreateVertices(deps, done), edges + CreateEdges(deps, done))
    modifies graph
    ensures Spans(vertices + CreateVertices(deps, done + {lib}), edges + CreateEdges(deps, done + {lib}))
    ensures graph.nodes == Build(vertices + CreateVertices(deps, done + {lib}), edges + CreateEdges(deps, done + {lib}))
  {
    ghost var v, e := vertices + CreateVertices(deps, done), edges + CreateEdges(deps, done);
    BuildMirrored(v, e);
    BuildWithNode(v, e, lib);
    var node := graph.GetNode(lib);
    var nodeDeps := if lib in cache.dependencies then cache.dependencies[lib] else {};
    LinkRoot(graph, lib, nodeDeps, v + {lib}, e);
    CreateStep(vertices, edges, deps, done, lib);
  }

  /** The edge `create` adds from `lib` to `dep`: none when the library lists itself. */
  function Link(lib: string, dep: string): (r: set<(string, string)>)
    ensures forall a, b :: (a, b) in r <==> a == lib && b == dep && dep != lib
  {
    if dep == lib then {} else {(lib, dep)}
  }

  /** Handling one more dependency `dep` of `lib` grows the vertices by it and the edges by its link. */
  lemma LinkStep(vertices: set<string>, edges: set<(string, string)>, lib: string, done: set<string>, dep: string)
    ensures vertices + (done + {dep}) == (vertices + done) + {dep}
    ensures edges + Fan(lib, (done + {dep}) - {lib}) == (edges + Fan(lib, done - {lib})) + Link(lib, dep)
  {
  }

  /** The `for dep in node_deps` loop of `create`: an edge from `lib` to each dependency other than itself. */
  method LinkRoot(graph: DepGraph, lib: string, deps: set<string>,
                  ghost vertices: set<string>, ghost edges: set<(string, string)>)
    requires Spans(vertices, edges) && graph.nodes == Build(vertices, edges) && lib in vertices
    modifies graph
    ensures Spans(vertices + deps, edges + Fan(lib, deps - {lib}))
    ensures graph.nodes == Build(vertices + deps, edges + Fan(lib, deps - {lib}))
  {
    var todo := deps;
    ghost var done: set<string> := {};
    assert vertices + done == vertices && edges + Fan(lib, done - {lib}) == edges;
    while todo != {}
      invariant todo + done == deps && todo !! done
      invariant Spans(vertices + done, edges + Fan(lib, done - {lib}))
      invariant graph.nodes == Build(vertices + done, edges + Fan(lib, done - {lib}))
      decreases |todo|
    {
      var dep :| dep in todo;
      LinkRootOne(graph, lib, dep, vertices, edges, done);
      LibsHelper.MoveOne(todo, done, deps, dep);
      done := done + {dep};
      todo := todo - {dep};
    }
    assert done == {} + done;
  }

  /** One turn of the `for dep in node_deps` loop: `add_dependency(lib, dep)` unless `dep` is `lib`. */
  method LinkRootOne(graph: DepGraph, lib: string, dep: string,
                     ghost vertices: set<string>, ghost edges: set<(string, string)>, ghost done: set<string>)
    requires lib in vertices
    requires Spans(vertices + done, edges + Fan(lib, done - {lib}))
    requires graph.nodes == Build(vertices + done, edges + Fan(lib, done - {lib}))
    modifies graph
    ensures Spans(vertices + (done + {dep}), edges + Fan(lib, (done + {dep}) - {lib}))
    ensures graph.nodes == Build(vertices + (done + {dep}), edges + Fan(lib, (done + {dep}) - {lib}))
  {
    ghost var v, e := vertices + done, edges + Fan(lib, done - {lib});
    LinkStep(vertices, edges, lib, done, dep);
    LinkCases(v, e, lib, dep);
    if dep != lib {
      AddEdge(graph, lib, dep, v, e);
    }
  }

  lemma AddKnown(vertices: set<string>, lib: string, dep: string)
    requires lib in vertices
    ensures vertices + {lib, dep} == vertices + {dep}
  {
  }

  lemma LinkCases(vertices: set<string>, edges: set<(string, string)>, lib: string, dep: string)
    requires lib in vertices
    ensures dep != lib ==> edges + Link(lib, dep) == edges + {(lib, dep)}
    ensures dep == lib ==> vertices + {dep} == vertices && edges + Link(lib, dep) == edges
  {
  }

  /** `add_dependency(lib, dep)`, on a graph built from `vertices` and `edges`. */
  method AddEdge(graph: DepGraph, lib: string, dep: string,
                 ghost vertices: set<string>, ghost edges: set<(string, string)>)
    requires lib in vertices && Spans(vertices, edges) && graph.nodes == Build(vertices, edges)
    modifies graph
    ensures Spans(vertices + {dep}, edges + {(lib, dep)})
    ensures graph.nodes == Build(vertices + {dep}, edges + {(lib, dep)})
  {
    BuildMirrored(vertices, edges);
    BuildWithEdge(vertices, edges, lib, dep);
    AddKnown(vertices, lib, dep);
    graph.AddDependency(lib, dep);
  }

  // ---------------------------------------------------------------------
  // compute_dependencies
  // ---------------------------------------------------------------------

  /** The nodes of the graph `create` builds for `libs` on a fresh graph. */
  function CreatedVertices(deps: map<string, set<string>>, libs: seq<string>): set<string>
  {
    CreateVertices(deps, RootSet(deps, libs))
  }

  /** The edges of the graph `create` builds for `libs` on a fresh graph. */
  function CreatedEdges(deps: map<string, set<string>>, libs: seq<string>): set<(string, string)>
  {
    CreateEdges(deps, RootSet(deps, libs))
  }

  /** The `order` a node gets when it is not one of the libraries asked for. */
  const Unordered := 10000

  /** `data['order']` after the `for i, lib in enumerate(libs)` loop: the last position of `name` in `libs`. */
  function Order(libs: seq<string>, name: string): (r: int)
    ensures name in libs ==> 0 <= r < |libs| && libs[r] == name && forall j :: r < j < |libs| ==> libs[j] != name
    ensures name !in libs ==> r == Unordered
  {
    if libs == [] then Unordered
    else if libs[|libs| - 1] == name then |libs| - 1
    else
      assert libs == libs[..|libs| - 1] + [libs[|libs| - 1]];
      Order(libs[..|libs| - 1], name)
  }

  /** `n.data.get('order', 10_000)`, for the `order` entries kept apart from the nodes. */
  function KeyOf(order: map<string, int>, name: string): int
  {
    if name in order then order[name] else Unordered
  }

  lemma OrderStep(libs: seq<string>, i: nat, name: string)
    requires i < |libs|
    ensures Order(libs[..i + 1], name) == if libs[i] == name then i else Order(libs[..i], name)
  {
    assert libs[..i + 1][..i] == libs[..i];
  }

  /**
    The `for i, lib in enumerate(libs)` loop: `get_node(lib)` finds a node
    already there, and the order it records for each library is its last
    position in `libs`.
   */
  method AssignOrder(graph: DepGraph, libs: seq<string>, ghost vertices: set<string>, ghost edges: set<(string, string)>)
    returns (order: map<string, int>)
    requires Spans(vertices, edges) && graph.nodes == Build(vertices, edges)
    requires forall x :: x in libs ==> x in vertices
    modifies graph
    ensures graph.nodes == Build(vertices, edges)
    ensures forall name :: KeyOf(order, name) == Order(libs, name)
  {
    order := map[];
    for i := 0 to |libs|
      invariant graph.nodes == Build(vertices, edges)
      invariant forall name :: KeyOf(order, name) == Order(libs[..i], name)
    {
      BuildMirrored(vertices, edges);
      BuildWithNode(vertices, edges, libs[i]);
      AddPresent(vertices, libs[i]);
      var node := graph.GetNode(libs[i]);
      ghost var previous := order;
      order := order[libs[i] := i];
      forall name
        ensures KeyOf(order, name) == Order(libs[..i + 1], name)
      {
        OrderStep(libs, i, name);
        assert KeyOf(order, name) == if libs[i] == name then i else KeyOf(previous, name);
      }
    }
    assert libs[..|libs|] == libs;
  }

  lemma AddPresent(vertices: set<string>, item: string)
    requires item in vertices
    ensures vertices + {item} == vertices
  {
  }

  /** `xs` in ascending order of the keys `order` gives. */
  predicate SortedBy(xs: seq<string>, order: map<string, int>)
  {
    forall i, j :: 0 <= i < j < |xs| ==> KeyOf(order, xs[i]) <= KeyOf(order, xs[j])
  }

  /** Inserts `x` after every element of `ys` whose key is not above its own. */
  function InsertBy(x: string, ys: seq<string>, order: map<string, int>): (r: seq<string>)
    ensures multiset(r) == multiset(ys) + multiset{x}
  {
    if ys == [] then [x]
    else if KeyOf(order, x) < KeyOf(order, ys[0]) then [x] + ys
    else
      assert ys == [ys[0]] + ys[1..];
      [ys[0]] + InsertBy(x, ys[1..], order)
  }

  /** Inserting into a sorted list keeps it sorted. */
  lemma {:induction false} InsertSorted(x: string, ys: seq<string>, order: map<string, int>)
    requires SortedBy(ys, order)
    ensures SortedBy(InsertBy(x, ys, order), order)
  {
    if ys == [] {
    } else if KeyOf(order, x) < KeyOf(order, ys[0]) {
      SortedCons(x, ys, order);
    } else {
      var tail := InsertBy(x, ys[1..], order);
      SortedTail(ys, order);
      InsertSorted(x, ys[1..], order);
      InsertedFrom(x, ys[1..], tail);
      SortedCons(ys[0], tail, order);
    }
  }

  lemma SortedTail(ys: seq<string>, order: map<string, int>)
    requires ys != [] && SortedBy(ys, order)
    ensures SortedBy(ys[1..], order)
    ensures forall z :: z in ys[1..] ==> KeyOf(order, ys[0]) <= KeyOf(order, z)
  {
  }

  lemma SortedCons(h: string, t: seq<string>, order: map<string, int>)
    requires SortedBy(t, order)
    requires forall z :: z in t ==> KeyOf(order, h) <= KeyOf(order, z)
    ensures SortedBy([h] + t, order)
  {
    var r := [h] + t;
    forall i, j | 0 <= i < j < |r|
      ensures KeyOf(order, r[i]) <= KeyOf(order, r[j])
    {
      if i == 0 {
        assert r[j] == t[j - 1];
      } else {
        assert r[i] == t[i - 1] && r[j] == t[j - 1];
      }
    }
  }

  lemma InsertedFrom(x: string, ys: seq<string>, r: seq<string>)
    requires multiset(r) == multiset(ys) + multiset{x}
    ensures forall z :: z in r ==> z == x || z in ys
  {
    forall z | z in r
      ensures z == x || z in ys
    {
      assert z in multiset(r);
    }
  }

  /** `list.sort(key=...)` with the keys `order` gives: the same elements in ascending order of key. */
  function SortBy(xs: seq<string>, order: map<string, int>): (r: seq<string>)
    ensures multiset(r) == multiset(xs)
    ensures SortedBy(r, order)
  {
    if xs == [] then []
    else
      assert xs == xs[..|xs| - 1] + [xs[|xs| - 1]];
      var sorted := SortBy(xs[..|xs| - 1], order);
      InsertSorted(xs[|xs| - 1], sorted, order);
      InsertBy(xs[|xs| - 1], sorted, order)
  }

  /** `[n for n in graph.get_nodes() if n.is_root]`, with the nodes listed in the order of `keys`. */
  function RootsAmong(nodes: map<string, Node>, keys: seq<string>): (r: seq<string>)
    requires forall k :: k in keys ==> k in nodes
    ensures forall x :: x in r <==> x in keys && nodes[x].IsRoot()
    ensures multiset(r) <= multiset(keys)
  {
    if keys == [] then []
    else
      assert keys == keys[..|keys| - 1] + [keys[|keys| - 1]];
      var k := keys[|keys| - 1];
      RootsAmong(nodes, keys[..|keys| - 1]) + (if nodes[k].IsRoot() then [k] else [])
  }

  /** The edges still in the graph once the nodes of `emitted` have been unlinked from their dependencies. */
  function Remaining(edges: set<(string, string)>, emitted: set<string>): (r: set<(string, string)>)
    ensures forall a, b :: (a, b) in r <==> (a, b) in edges && a !in emitted
  {
    set e | e in edges && e.0 !in emitted
  }

  lemma RemainingNone(edges: set<(string, string)>)
    ensures Remaining(edges, {}) == edges
  {
  }

  /** Unlinking `node` from each of its targets leaves the edges of the nodes emitted before and after it. */
  lemma RemainingStep(edges: set<(string, string)>, emitted: set<string>, node: string)
    ensures Remaining(edges, emitted) - Fan(node, Targets(Remaining(edges, emitted), node))
            == Remaining(edges, emitted + {node})
  {
  }

  /**
    `s` lists each node at most once, every node with an edge into a listed
    node is listed too, and is listed before it: a library comes before
    every library it depends on.
   */
  ghost predicate Ordered(edges: set<(string, string)>, s: seq<string>)
  {
    && Distinct(s)
    && (forall a, j :: 0 <= j < |s| && (a, s[j]) in edges ==> a in s)
    && (forall i, j :: 0 <= i < |s| && 0 <= j < |s| && (s[i], s[j]) in edges ==> i < j)
  }

  /**
    The `roots` stack: each node once, and exactly the nodes not yet emitted
    that no remaining edge points into.
   */
  ghost predicate Stacked(vertices: set<string>, edges: set<(string, string)>, emitted: set<string>, roots: seq<string>)
  {
    && Distinct(roots)
    && (forall r :: r in roots ==> r in vertices && r !in emitted && Sources(Remaining(edges, emitted), r) == {})
    && (forall v :: v in vertices && v !in emitted && Sources(Remaining(edges, emitted), v) == {} ==> v in roots)
  }

  /** What the `while len(roots) > 0` loop of `compute_dependencies` keeps. */
  ghost predicate Kahn(vertices: set<string>, edges: set<(string, string)>,
                       emitted: set<string>, sortedLibs: seq<string>, roots: seq<string>)
  {
    && Spans(vertices, edges)
    && (forall a :: (a, a) !in edges)
    && emitted <= vertices
    && (forall x :: x in emitted <==> x in sortedLibs)
    && Ordered(edges, sortedLibs)
    && Stacked(vertices, edges, emitted, roots)
  }

  /** Every node of `c` has an edge into it from a node of `c`: no node of `c` can become a root. */
  ghost predicate Fed(edges: set<(string, string)>, c: set<string>)
  {
    forall v :: v in c ==> Sources(edges, v) * c != {}
  }

  lemma DistinctSnoc(xs: seq<string>, x: string)
    requires Distinct(xs) && x !in xs
    ensures Distinct(xs + [x])
  {
    assert multiset(xs + [x]) == multiset(xs) + multiset{x};
  }

  lemma DistinctFewer(xs: seq<string>, ys: seq<string>)
    requires Distinct(ys) && multiset(xs) <= multiset(ys)
    ensures Distinct(xs)
  {
    forall x
      ensures multiset(xs)[x] <= 1
    {
      assert multiset(xs)[x] <= multiset(ys)[x];
    }
  }

  lemma DistinctPop(roots: seq<string>)
    requires roots != [] && Distinct(roots)
    ensures Distinct(roots[..|roots| - 1]) && roots[|roots| - 1] !in roots[..|roots| - 1]
    ensures forall x :: x in roots <==> x in roots[..|roots| - 1] || x == roots[|roots| - 1]
  {
    var rest, node := roots[..|roots| - 1], roots[|roots| - 1];
    assert roots == rest + [node];
    assert multiset(roots) == multiset(rest) + multiset{node};
    DistinctFewer(rest, roots);
    assert multiset(rest)[node] + 1 == multiset(roots)[node];
  }

  /** Emitting a root keeps the list ordered. */
  lemma OrderedStep(edges: set<(string, string)>, s: seq<string>, emitted: set<string>, node: string)
    requires Ordered(edges, s) && (forall x :: x in emitted <==> x in s)
    requires node !in emitted && Sources(Remaining(edges, emitted), node) == {}
    ensures Ordered(edges, s + [node])
  {
    var s' := s + [node];
    DistinctSnoc(s, node);
    forall a, j | 0 <= j < |s'| && (a, s'[j]) in edges
      ensures a in s'
    {
      if j == |s| {
        assert a !in Sources(Remaining(edges, emitted), node);
      } else {
        assert s'[j] == s[j];
      }
    }
    forall i, j | 0 <= i < |s'| && 0 <= j < |s'| && (s'[i], s'[j]) in edges
      ensures i < j
    {
      assert s'[|s|] == node;
      assert i < |s| ==> s'[i] == s[i];
      assert j < |s| ==> s'[j] == s[j];
    }
  }

  /** A dependency of a node not yet emitted is not emitted either. */
  lemma NotEmittedBelow(edges: set<(string, string)>, s: seq<string>, emitted: set<string>, node: string, t: string)
    requires Ordered(edges, s) && (forall x :: x in emitted <==> x in s)
    requires node !in emitted && (node, t) in edges
    ensures t !in emitted
  {
    assert forall j :: 0 <= j < |s| && s[j] == t ==> node in s;
  }

  /** Dropping the edges from `node` to the targets in `done` leaves the sources of `t` but `node`, once `t` is among them. */
  lemma SourcesAfterRelease(edges: set<(string, string)>, node: string, done: set<string>, t: string)
    ensures Sources(edges - Fan(node, done), t) == if t in done then Sources(edges, t) - {node} else Sources(edges, t)
  {
  }

  lemma FanRemove(edges: set<(string, string)>, node: string, done: set<string>, t: string)
    ensures (edges - Fan(node, done)) - {(node, t)} == edges - Fan(node, done + {t})
  {
  }

  lemma FanNone(edges: set<(string, string)>, node: string)
    ensures edges - Fan(node, {}) == edges
  {
  }

  /**
    One turn of the `for target in node_dependencies` loop:
    `remove_dependency(node.name, target.name)`, then `target.is_root`.
   */
  method ReleaseOne(graph: DepGraph, node: string, t: string,
                    ghost vertices: set<string>, ghost edges: set<(string, string)>, ghost done: set<string>)
    returns (isRoot: bool)
    requires Spans(vertices, edges - Fan(node, done)) && graph.nodes == Build(vertices, edges - Fan(node, done))
    requires (node, t) in edges && t !in done
    modifies graph
    ensures Spans(vertices, edges - Fan(node, done + {t}))
    ensures graph.nodes == Build(vertices, edges - Fan(node, done + {t}))
    ensures isRoot <==> Sources(edges, t) <= {node}
  {
    ghost var current := edges - Fan(node, done);
    assert (node, t) in current;
    BuildMirrored(vertices, current);
    BuildWithoutEdge(vertices, current, node, t);
    FanRemove(edges, node, done, t);
    var ok := graph.RemoveDependency(node, t);
    SourcesAfterRelease(edges, node, done + {t}, t);
    isRoot := graph.nodes[t].IsRoot();
  }

  /**
    The `for target in node_dependencies` loop: unlinks `node` from each of
    its targets and pushes each target left with nothing depending on it.
   */
  method Release(graph: DepGraph, node: string, targets: set<string>, rest: seq<string>,
                 ghost vertices: set<string>, ghost edges: set<(string, string)>)
    returns (roots: seq<string>)
    requires Spans(vertices, edges) && graph.nodes == Build(vertices, edges)
    requires targets == Targets(edges, node)
    requires Distinct(rest) && forall r :: r in rest ==> Sources(edges, r) == {}
    modifies graph
    ensures Spans(vertices, edges - Fan(node, targets))
    ensures graph.nodes == Build(vertices, edges - Fan(node, targets))
    ensures Distinct(roots)
    ensures forall x :: x in roots <==> x in rest || (x in targets && Sources(edges, x) <= {node})
  {
    roots := rest;
    var todo := targets;
    ghost var done: set<string> := {};
    FanNone(edges, node);
    assert Released(edges, node, rest, roots, done);
    while todo != {}
      invariant todo + done == targets && todo !! done
      invariant Spans(vertices, edges - Fan(node, done)) && graph.nodes == Build(vertices, edges - Fan(node, done))
      invariant Released(edges, node, rest, roots, done)
      decreases |todo|
    {
      var t :| t in todo;
      var isRoot := ReleaseOne(graph, node, t, vertices, edges, done);
      PushStep(edges, node, rest, roots, done, t, isRoot);
      if isRoot {
        roots := roots + [t];
      }
      LibsHelper.MoveOne(todo, done, targets, t);
      done := done + {t};
      todo := todo - {t};
    }
    assert done == targets;
  }

  /** The stack while `node` is being released: `rest`, then each released target left with nothing depending on it. */
  ghost predicate Released(edges: set<(string, string)>, node: string, rest: seq<string>, roots: seq<string>, done: set<string>)
  {
    && Distinct(roots)
    && forall x :: x in roots <==> x in rest || (x in done && Sources(edges, x) <= {node})
  }

  /** Pushing a released target that is now a root keeps the stack as `Released` describes it. */
  lemma PushStep(edges: set<(string, string)>, node: string, rest: seq<string>, roots: seq<string>,
                 done: set<string>, t: string, isRoot: bool)
    requires (forall r :: r in rest ==> Sources(edges, r) == {}) && (node, t) in edges && t !in done
    requires Released(edges, node, rest, roots, done)
    requires isRoot <==> Sources(edges, t) <= {node}
    ensures Released(edges, node, rest, if isRoot then roots + [t] else roots, done + {t})
  {
    assert node in Sources(edges, t);
    if isRoot {
      DistinctSnoc(roots, t);
    }
  }

  lemma RemainingSpans(vertices: set<string>, edges: set<(string, string)>, emitted: set<string>)
    requires Spans(vertices, edges)
    ensures Spans(vertices, Remaining(edges, emitted))
  {
  }

  /** After `node` is emitted and released, the stack again holds exactly the nodes nothing left depends on. */
  lemma StackedStep(vertices: set<string>, edges: set<(string, string)>, emitted: set<string>,
                    sortedLibs: seq<string>, roots: seq<string>, roots': seq<string>)
    requires roots != [] && Kahn(vertices, edges, emitted, sortedLibs, roots)
    requires Distinct(roots')
    requires forall x :: x in roots' <==>
               (x in roots[..|roots| - 1] ||
                (x in Targets(Remaining(edges, emitted), roots[|roots| - 1]) &&
                 Sources(Remaining(edges, emitted), x) <= {roots[|roots| - 1]}))
    ensures Stacked(vertices, edges, emitted + {roots[|roots| - 1]}, roots')
  {
    var node, rest := roots[|roots| - 1], roots[..|roots| - 1];
    DistinctPop(roots);
    var e, e' := Remaining(edges, emitted), Remaining(edges, emitted + {node});
    assert forall x :: Sources(e', x) == Sources(e, x) - {node};
    forall r | r in roots'
      ensures r in vertices && r !in emitted + {node} && Sources(e', r) == {}
    {
      if r !in rest {
        assert (node, r) in edges;
        NotEmittedBelow(edges, sortedLibs, emitted, node, r);
      }
    }
    forall v | v in vertices && v !in emitted + {node} && Sources(e', v) == {}
      ensures v in roots'
    {
      if node !in Sources(e, v) {
        assert Sources(e, v) == {};
      }
    }
  }

  /**
    One turn of the `while len(roots) > 0` loop: pop the last root, append
    it to the result, and release its dependencies.
   */
  method Emit(graph: DepGraph, roots: seq<string>, sortedLibs: seq<string>,
              ghost vertices: set<string>, ghost edges: set<(string, string)>, ghost emitted: set<string>)
    returns (roots': seq<string>, sortedLibs': seq<string>, ghost emitted': set<string>)
    requires roots != [] && Kahn(vertices, edges, emitted, sortedLibs, roots)
    requires graph.nodes == Build(vertices, Remaining(edges, emitted))
    modifies graph
    ensures Kahn(vertices, edges, emitted', sortedLibs', roots')
    ensures graph.nodes == Build(vertices, Remaining(edges, emitted'))
    ensures sortedLibs' == sortedLibs + [roots[|roots| - 1]]
    ensures |vertices - emitted'| < |vertices - emitted|
  {
    var node := roots[|roots| - 1];
    var rest := roots[..|roots| - 1];
    DistinctPop(roots);
    sortedLibs' := sortedLibs + [node];
    ghost var e := Remaining(edges, emitted);
    RemainingSpans(vertices, edges, emitted);
    var targets := graph.nodes[node].outRefs;
    roots' := Release(graph, node, targets, rest, vertices, e);
    OrderedStep(edges, sortedLibs, emitted, node);
    RemainingStep(edges, emitted, node);
    StackedStep(vertices, edges, emitted, sortedLibs, roots, roots');
    LibsHelper.Shrinks(vertices, emitted, node);
    emitted' := emitted + {node};
  }

  /** The sorted list of roots starts the loop as the stack of `Kahn`. */
  lemma InitialStacked(vertices: set<string>, edges: set<(string, string)>, keys: seq<string>, order: map<string, int>)
    requires Spans(vertices, edges)
    requires Distinct(keys) && forall x :: x in keys <==> x in vertices
    ensures Stacked(vertices, edges, {}, SortBy(RootsAmong(Build(vertices, edges), keys), order))
  {
    var nodes := Build(vertices, edges);
    var found := RootsAmong(nodes, keys);
    var roots := SortBy(found, order);
    RemainingNone(edges);
    DistinctFewer(found, keys);
    DistinctFewer(roots, found);
    forall r | r in roots
      ensures r in vertices && Sources(edges, r) == {}
    {
      assert r in multiset(roots);
      assert r in found;
      assert nodes[r].inRefs == Sources(edges, r);
    }
    forall v | v in vertices && Sources(edges, v) == {}
      ensures v in roots
    {
      assert nodes[v].inRefs == Sources(edges, v);
      assert v in found;
      assert v in multiset(found);
    }
  }

  /** `top` has nothing depending on it, and no other such node comes later in `libs`. */
  ghost predicate Leads(vertices: set<string>, edges: set<(string, string)>, libs: seq<string>, top: string)
  {
    && Sources(edges, top) == {}
    && forall v :: v in vertices && Sources(edges, v) == {} ==> Order(libs, v) <= Order(libs, top)
  }

  /** The first name of `sortedLibs` is `top`, the root on top of the stack while nothing has been emitted. */
  ghost predicate StartsWith(sortedLibs: seq<string>, roots: seq<string>, top: string)
  {
    && (sortedLibs == [] && roots != [] ==> roots[|roots| - 1] == top)
    && (sortedLibs != [] ==> sortedLibs[0] == top)
  }

  lemma StartsWithStep(sortedLibs: seq<string>, roots: seq<string>, roots': seq<string>, top: string)
    requires roots != [] && StartsWith(sortedLibs, roots, top)
    ensures StartsWith(sortedLibs + [roots[|roots| - 1]], roots', top)
  {
  }

  /** The root popped first is the one whose library comes last in `libs`. */
  lemma LastRootFirst(vertices: set<string>, edges: set<(string, string)>, roots: seq<string>,
                      order: map<string, int>, libs: seq<string>)
    requires roots != [] && Stacked(vertices, edges, {}, roots) && SortedBy(roots, order)
    requires forall name :: KeyOf(order, name) == Order(libs, name)
    ensures Leads(vertices, edges, libs, roots[|roots| - 1])
  {
    RemainingNone(edges);
    forall v | v in vertices && Sources(edges, v) == {}
      ensures Order(libs, v) <= Order(libs, roots[|roots| - 1])
    {
      var i :| 0 <= i < |roots| && roots[i] == v;
      assert KeyOf(order, roots[i]) <= KeyOf(order, roots[|roots| - 1]);
    }
  }

  /** When the stack runs empty, every node left out has an edge into it from another node left out. */
  lemma LeftoverFed(vertices: set<string>, edges: set<(string, string)>, emitted: set<string>, sortedLibs: seq<string>)
    requires Kahn(vertices, edges, emitted, sortedLibs, [])
    ensures Fed(edges, vertices - set x | x in sortedLibs)
  {
    var left := vertices - set x | x in sortedLibs;
    forall v | v in left
      ensures Sources(edges, v) * left != {}
    {
      var e := Remaining(edges, emitted);
      assert Sources(e, v) != {};
      var a :| a in Sources(e, v);
      assert a in Sources(edges, v) * left;
    }
  }

  /**
    `compute_dependencies(cache, libs)`: builds the graph of `libs` (of every
    library of the cache when `libs` is empty) and lists its nodes so that
    each library comes before the libraries it depends on. The list is the
    whole graph but for the nodes on a dependency cycle and below one, and
    it starts with the root that comes last in `libs`.
   */
  method ComputeDependencies(cache: Legacy.Cache, libs: seq<string>) returns (sortedLibs: seq<string>)
    ensures Ordered(CreatedEdges(cache.dependencies, libs), sortedLibs)
    ensures forall x :: x in sortedLibs ==> x in CreatedVertices(cache.dependencies, libs)
    ensures Fed(CreatedEdges(cache.dependencies, libs), CreatedVertices(cache.dependencies, libs) - set x | x in sortedLibs)
    ensures sortedLibs != [] ==> Leads(CreatedVertices(cache.dependencies, libs), CreatedEdges(cache.dependencies, libs), libs, sortedLibs[0])
  {
    ghost var vertices, edges := CreatedVertices(cache.dependencies, libs), CreatedEdges(cache.dependencies, libs);
    var graph, roots := StartGraph(cache, libs);
    CreateSpans(cache.dependencies, RootSet(cache.dependencies, libs));
    InitialKahn(vertices, edges, roots);
    ghost var top := if roots == [] then "" else roots[|roots| - 1];
    sortedLibs := [];
    ghost var emitted: set<string> := {};
    RemainingNone(edges);
    while roots != []
      invariant Kahn(vertices, edges, emitted, sortedLibs, roots)
      invariant graph.nodes == Build(vertices, Remaining(edges, emitted))
      invariant StartsWith(sortedLibs, roots, top)
      invariant sortedLibs != [] || roots != [] ==> Leads(vertices, edges, libs, top)
      decreases |vertices - emitted|
    {
      ghost var previous, stack := sortedLibs, roots;
      roots, sortedLibs, emitted := Emit(graph, roots, sortedLibs, vertices, edges, emitted);
      StartsWithStep(previous, stack, roots, top);
    }
    Finish(vertices, edges, libs, emitted, sortedLibs, top);
  }

  /** What the emptied stack says about the list `compute_dependencies` returns. */
  lemma Finish(vertices: set<string>, edges: set<(string, string)>, libs: seq<string>,
               emitted: set<string>, sortedLibs: seq<string>, top: string)
    requires Kahn(vertices, edges, emitted, sortedLibs, []) && StartsWith(sortedLibs, [], top)
    requires sortedLibs != [] ==> Leads(vertices, edges, libs, top)
    ensures Ordered(edges, sortedLibs)
    ensures forall x :: x in sortedLibs ==> x in vertices
    ensures Fed(edges, vertices - set x | x in sortedLibs)
    ensures sortedLibs != [] ==> Leads(vertices, edges, libs, sortedLibs[0])
  {
    LeftoverFed(vertices, edges, emitted, sortedLibs);
  }

  /**
    The part of `compute_dependencies` before its loop: `create`, the
    `order` of each library, and the roots sorted by it.
   */
  method StartGraph(cache: Legacy.Cache, libs: seq<string>) returns (graph: DepGraph, roots: seq<string>)
    ensures fresh(graph)
    ensures graph.nodes == Build(CreatedVertices(cache.dependencies, libs), CreatedEdges(cache.dependencies, libs))
    ensures Stacked(CreatedVertices(cache.dependencies, libs), CreatedEdges(cache.dependencies, libs), {}, roots)
    ensures roots != [] ==> Leads(CreatedVertices(cache.dependencies, libs), CreatedEdges(cache.dependencies, libs), libs, roots[|roots| - 1])
  {
    ghost var deps := cache.dependencies;
    ghost var vertices, edges := CreatedVertices(deps, libs), CreatedEdges(deps, libs);
    graph := new DepGraph();
    EmptyBuild();
    Create(graph, cache, libs, {}, {});
    CreatedFacts(deps, libs);
    assert graph.nodes == Build(vertices, edges);
    var order := AssignOrder(graph, libs, vertices, edges);
    var keys := Enumerate(graph.GetKeys());
    roots := SortBy(RootsAmong(graph.nodes, keys), order);
    InitialStacked(vertices, edges, keys, order);
    if roots != [] {
      LastRootFirst(vertices, edges, roots, order, libs);
    }
  }

  lemma CreatedFacts(deps: map<string, set<string>>, libs: seq<string>)
    ensures {} + CreatedVertices(deps, libs) == CreatedVertices(deps, libs)
    ensures {} + CreatedEdges(deps, libs) == CreatedEdges(deps, libs)
    ensures Spans(CreatedVertices(deps, libs), CreatedEdges(deps, libs))
    ensures forall x :: x in libs ==> x in CreatedVertices(deps, libs)
  {
    CreateSpans(deps, RootSet(deps, libs));
  }

  lemma InitialKahn(vertices: set<string>, edges: set<(string, string)>, roots: seq<string>)
    requires Spans(vertices, edges) && (forall a :: (a, a) !in edges) && Stacked(vertices, edges, {}, roots)
    ensures Kahn(vertices, edges, {}, [], roots)
  {
  }

  lemma EmptyBuild()
    ensures Build({}, {}) == map[]
  {
  }

  // ---------------------------------------------------------------------
  // What the list leaves out
  // ---------------------------------------------------------------------

  /** `c` is a dependency cycle: each library depends on the next, and the last on the first. */
  ghost predicate Cycle(edges: set<(string, string)>, c: seq<string>)
  {
    |c| > 0 && Walk(edges, c) && (c[|c| - 1], c[0]) in edges
  }

  /** Each node of `w` has an edge to the next. */
  ghost predicate Walk(edges: set<(string, string)>, w: seq<string>)
  {
    forall i :: 0 <= i < |w| - 1 ==> (w[i], w[i + 1]) in edges
  }

  lemma WalkCons(edges: set<(string, string)>, a: string, w: seq<string>)
    requires w != [] && Walk(edges, w) && (a, w[0]) in edges
    ensures Walk(edges, [a] + w)
  {
    var w' := [a] + w;
    forall i | 0 <= i < |w'| - 1
      ensures (w'[i], w'[i + 1]) in edges
    {
      assert i > 0 ==> w'[i] == w[i - 1];
      assert w'[i + 1] == w[i];
    }
  }

  lemma WalkSlice(edges: set<(string, string)>, w: seq<string>, i: nat, j: nat)
    requires Walk(edges, w) && i <= j <= |w|
    ensures Walk(edges, w[i..j])
  {
    var w' := w[i..j];
    forall k | 0 <= k < |w'| - 1
      ensures (w'[k], w'[k + 1]) in edges
    {
      assert w'[k] == w[i + k] && w'[k + 1] == w[i + k + 1];
    }
  }

  /** The nodes of a cycle each have an edge into them from the cycle. */
  lemma CycleIsFed(edges: set<(string, string)>, c: seq<string>)
    requires Cycle(edges, c)
    ensures Fed(edges, set x | x in c)
  {
    var nodes := set x | x in c;
    forall v | v in nodes
      ensures Sources(edges, v) * nodes != {}
    {
      var i :| 0 <= i < |c| && c[i] == v;
      var p := if i == 0 then |c| - 1 else i - 1;
      assert c[p] in Sources(edges, v) * nodes;
    }
  }

  /** No node among the first `n` of an ordered list lies in a fed set. */
  lemma {:induction false} ListedOutside(edges: set<(string, string)>, s: seq<string>, c: set<string>, n: nat)
    requires Ordered(edges, s) && Fed(edges, c) && n <= |s|
    ensures forall j :: 0 <= j < n ==> s[j] !in c
  {
    if n > 0 {
      ListedOutside(edges, s, c, n - 1);
      var x := s[n - 1];
      forall a | a in Sources(edges, x)
        ensures a !in c
      {
        assert a in s;
        var i :| 0 <= i < |s| && s[i] == a;
        assert i < n - 1;
      }
      assert Sources(edges, x) * c == {};
    }
  }

  /** An ordered list never reaches a node of a fed set. */
  lemma FedNeverListed(edges: set<(string, string)>, s: seq<string>, c: set<string>)
    requires Ordered(edges, s) && Fed(edges, c)
    ensures forall x :: x in c ==> x !in s
  {
    ListedOutside(edges, s, c, |s|);
  }

  /** A library on a dependency cycle is never listed. */
  lemma CycleNeverListed(edges: set<(string, string)>, s: seq<string>, c: seq<string>)
    requires Ordered(edges, s) && Cycle(edges, c)
    ensures forall x :: x in c ==> x !in s
  {
    CycleIsFed(edges, c);
    FedNeverListed(edges, s, set x | x in c);
  }

  /** A library reached by a walk that starts on a dependency cycle is never listed either. */
  lemma BelowCycleNeverListed(edges: set<(string, string)>, s: seq<string>, c: seq<string>, w: seq<string>)
    requires Ordered(edges, s) && Cycle(edges, c)
    requires Walk(edges, w) && w != [] && w[0] in c
    ensures forall x :: x in w ==> x !in s
  {
    CycleIsFed(edges, c);
    var nodes := (set x | x in c) + (set x | x in w);
    forall v | v in nodes
      ensures Sources(edges, v) * nodes != {}
    {
      if v in c {
        assert Sources(edges, v) * (set x | x in c) != {};
      } else {
        var i :| 0 <= i < |w| && w[i] == v;
        assert i > 0;
        assert w[i - 1] in Sources(edges, v) * nodes;
      }
    }
    FedNeverListed(edges, s, nodes);
  }

  /** A walk of `n` edges inside the fed set `c` that ends at `v`. */
  lemma {:induction false} WalkInto(edges: set<(string, string)>, c: set<string>, v: string, n: nat) returns (w: seq<string>)
    requires Fed(edges, c) && v in c
    ensures |w| == n + 1 && w[n] == v
    ensures (forall x :: x in w ==> x in c) && Walk(edges, w)
  {
    if n == 0 {
      w := [v];
    } else {
      var u := WalkInto(edges, c, v, n - 1);
      var a :| a in Sources(edges, u[0]) * c;
      WalkCons(edges, a, u);
      w := [a] + u;
      assert w[n] == u[n - 1];
    }
  }

  /** A list longer than the set holding its elements repeats one of them. */
  lemma {:induction false} Repeats(w: seq<string>, c: set<string>) returns (i: nat, j: nat)
    requires (forall x :: x in w ==> x in c) && |w| > |c|
    ensures i < j < |w| && w[i] == w[j]
    decreases |w|
  {
    var last, rest := w[|w| - 1], w[..|w| - 1];
    if exists k :: 0 <= k < |rest| && rest[k] == last {
      var k :| 0 <= k < |rest| && rest[k] == last;
      i, j := k, |w| - 1;
    } else {
      assert last in c;
      assert |c - {last}| == |c| - 1;
      i, j := Repeats(rest, c - {last});
    }
  }

  /** A cycle inside the nonempty fed set `c`. */
  lemma FindCycle(edges: set<(string, string)>, c: set<string>) returns (cycle: seq<string>)
    requires c != {} && Fed(edges, c)
    ensures Cycle(edges, cycle) && forall x :: x in cycle ==> x in c
  {
    var v :| v in c;
    var w := WalkInto(edges, c, v, |c|);
    var i, j := Repeats(w, c);
    var tail;
    cycle, tail := SplitAtRepeat(edges, w, i, j);
  }

  /** A nonempty fed set holds a cycle. */
  lemma FedHasCycle(edges: set<(string, string)>, c: set<string>)
    ensures c != {} && Fed(edges, c) ==> exists cycle :: Cycle(edges, cycle) && forall x :: x in cycle ==> x in c
  {
    if c != {} && Fed(edges, c) {
      var cycle := FindCycle(edges, c);
    }
  }

  /**
    Conversely, a node left out of a list whose leftover is fed lies on or
    below a cycle of leftover nodes: a walk from the cycle's first node ends at it.
   */
  lemma UnlistedBelowCycle(vertices: set<string>, edges: set<(string, string)>, s: seq<string>, v: string)
      returns (c: seq<string>, w: seq<string>)
    requires Fed(edges, vertices - set x | x in s)
    requires v in vertices && v !in s
    ensures Cycle(edges, c) && Walk(edges, w)
    ensures w != [] && w[0] == c[0] && w[|w| - 1] == v
    ensures forall x :: x in c ==> x in vertices && x !in s
    ensures forall x :: x in w ==> x in vertices && x !in s
  {
    var left := vertices - set x | x in s;
    var u := WalkInto(edges, left, v, |left|);
    var i, j := Repeats(u, left);
    c, w := SplitAtRepeat(edges, u, i, j);
  }

  /** A walk that repeats a node splits into a cycle and a walk from the cycle to the walk's end. */
  lemma SplitAtRepeat(edges: set<(string, string)>, u: seq<string>, i: nat, j: nat) returns (c: seq<string>, w: seq<string>)
    requires Walk(edges, u) && i < j < |u| && u[i] == u[j]
    ensures Cycle(edges, c) && Walk(edges, w)
    ensures w != [] && w[0] == c[0] && w[|w| - 1] == u[|u| - 1]
    ensures (forall x :: x in c ==> x in u) && (forall x :: x in w ==> x in u)
  {
    c := u[i..j];
    w := u[j..];
    WalkSlice(edges, u, i, j);
    WalkSlice(edges, u, j, |u|);
    assert c[0] == u[j] && c[|c| - 1] == u[j - 1];
  }

  /**
    When the created graph has no dependency cycle, the list filled by an
    emptied stack holds every node of it.
   */
  lemma AcyclicAllListed(vertices: set<string>, edges: set<(string, string)>, s: seq<string>)
    requires Fed(edges, vertices - set x | x in s)
    requires forall c :: !Cycle(edges, c)
    ensures forall v :: v in vertices ==> v in s
  {
    var left := vertices - set x | x in s;
    FedHasCycle(edges, left);
    assert left == {};
    forall v | v in vertices
      ensures v in s
    {
      assert v !in left;
    }
  }
}
