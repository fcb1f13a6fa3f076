/**
  The graph helpers of the packaged libshelper.py: looking names up in the
  catalog, building the dependency graph of a set of root libraries,
  contracting component members into one node, trimming a list of libraries
  down to those no other listed library needs, expanding package and
  component names, and the name formatting of the reports.
 */
module LibsHelper {
  import opened Options
  import opened Paths
  import opened Collections
  import opened Reach
  import opened Catalog
  import opened Graphs

  // ---------------------------------------------------------------------
  // filter_libraries
  // ---------------------------------------------------------------------

  /** The non-empty names `find` gives for the inputs, in input order. */
  function Picked(find: string -> Option<string>, libs: seq<string>): (r: seq<string>)
    ensures |r| <= |libs|
  {
    if libs == [] then []
    else
      var n := |libs| - 1;
      var kept := if find(libs[n]).Some? && find(libs[n]).value != "" then [find(libs[n]).value] else [];
      Picked(find, libs[..n]) + kept
  }

  /** A name is picked exactly when it is non-empty and `find` gives it for one of the inputs. */
  lemma {:induction false} PickedMember(find: string -> Option<string>, libs: seq<string>, x: string)
    ensures x in Picked(find, libs) <==> x != "" && exists l :: l in libs && find(l) == Some(x)
  {
    if libs != [] {
      var n := |libs| - 1;
      PickedMember(find, libs[..n], x);
      assert libs == libs[..n] + [libs[n]];
      if exists l :: l in libs && find(l) == Some(x) {
        var l :| l in libs && find(l) == Some(x);
        if l != libs[n] {
          assert l in libs[..n];
        }
      }
    }
  }

  /** The stored file name of the library `l` designates, if the catalog has one. */
  function FileName(libraries: map<string, Library>, l: string): Option<string>
  {
    match Lookup(libraries, l)
    case Some(lib) => Some(lib.filename)
    case None => None
  }

  function Finder(libraries: map<string, Library>): string -> Option<string>
  {
    l => FileName(libraries, l)
  }

  /**
    `filter_libraries`: the stored file name of each listed library, in
    input order, dropping (and warning about) the unknown ones; an empty
    file name is falsy and dropped too.
   */
  method FilterLibraries(cache: Cache, libs: seq<string>) returns (names: seq<string>)
    ensures names == Picked(Finder(cache.libraries), libs)
  {
    ghost var find := Finder(cache.libraries);
    names := [];
    var i := 0;
    while i < |libs|
      invariant 0 <= i <= |libs|
      invariant names == Picked(find, libs[..i])
    {
      assert libs[..i + 1][..i] == libs[..i];
      var libName := cache.FindLibrary(libs[i]);
      assert libName == find(libs[i]);
      if libName.Some? && libName.value != "" {
        names := names + [libName.value];
      }
      i := i + 1;
    }
    assert libs[..i] == libs;
  }

  // ---------------------------------------------------------------------
  // create_libs_graph
  // ---------------------------------------------------------------------

  function Members(s: seq<string>): set<string>
  {
    set x | x in s
  }

  /**
    What the walk of `create_libs_graph` keeps true: every name stays in
    `universe`; every root is visited or queued; what a visited name needs
    is visited or queued; and everything visited or queued lies in every
    closed set that contains the roots.
   */
  ghost predicate Frontier(expand: string -> set<string>, universe: set<string>, seeds: set<string>,
                           visited: set<string>, queue: seq<string>)
  {
    && visited <= universe && (forall x :: x in queue ==> x in universe)
    && (forall x :: x in seeds ==> x in visited || x in queue)
    && (forall x, y :: x in visited && y in expand(x) ==> y in visited || y in queue)
    && (forall s: set<string> :: seeds <= s && Closed(expand, s) ==> visited <= s && forall x :: x in queue ==> x in s)
  }

  /** Popping `item`, visiting it and queueing its needs that are neither visited nor queued keeps the frontier. */
  lemma FrontierStep(expand: string -> set<string>, universe: set<string>, seeds: set<string>,
                     visited: set<string>, queue: seq<string>, queue': seq<string>)
    requires Frontier(expand, universe, seeds, visited, queue) && |queue| > 0
    requires forall x :: expand(x) <= universe
    requires Extends(queue[..|queue| - 1], queue', expand(queue[|queue| - 1]), visited + {queue[|queue| - 1]})
    ensures Frontier(expand, universe, seeds, visited + {queue[|queue| - 1]}, queue')
  {
    var item := queue[|queue| - 1];
    var rest := queue[..|queue| - 1];
    assert queue == rest + [item];
    assert forall x :: x in queue ==> x == item || x in rest;
    forall s: set<string> | seeds <= s && Closed(expand, s)
      ensures visited + {item} <= s && forall x :: x in queue' ==> x in s
    {
      assert item in s;
      assert expand(item) <= s;
    }
  }

  /** A frontier with nothing queued is the closure of the roots. */
  lemma FrontierDone(expand: string -> set<string>, universe: set<string>, seeds: set<string>, visited: set<string>)
    requires Frontier(expand, universe, seeds, visited, [])
    ensures IsClosureOf(expand, visited, seeds)
  {
  }

  /**
    `queue'` is `queue` followed by names of `added` that are not visited
    and were not queued before, and holds every such name.
   */
  ghost predicate Extends(queue: seq<string>, queue': seq<string>, added: set<string>, visited: set<string>)
  {
    && |queue| <= |queue'| && queue'[..|queue|] == queue
    && (forall x :: x in queue' <==> x in queue || (x in added && x !in visited))
    && (forall k :: |queue| <= k < |queue'| ==> queue'[k] in added && queue'[k] !in visited && queue'[k] !in queue)
  }

  /** Appending `dep` unless it is queued or visited extends the queue by `dep`. */
  lemma ExtendsStep(queue: seq<string>, queue': seq<string>, added: set<string>, visited: set<string>, dep: string)
    requires Extends(queue, queue', added, visited)
    ensures Extends(queue, if dep !in queue' && dep !in visited then queue' + [dep] else queue', added + {dep}, visited)
  {
    if dep !in queue' && dep !in visited {
      var q := queue' + [dep];
      assert q[..|queue|] == queue' [..|queue|];
      assert forall x :: x in q <==> x in queue' || x == dep;
    }
  }

  /** Recording one more dependency `dep` of `item` grows the vertices and the edges by it. */
  lemma LinkStep(vertices: set<string>, edges: set<(string, string)>, done: set<string>, item: string, dep: string)
    requires item in vertices
    ensures (vertices + done) + {item, dep} == vertices + (done + {dep})
    ensures (edges + Fan(item, done)) + {(item, dep)} == edges + Fan(item, done + {dep})
  {
    FanAdd(item, done, dep);
  }

  /** Moving one name from the pending to the handled part of `deps`. */
  lemma MoveOne(todo: set<string>, done: set<string>, deps: set<string>, dep: string)
    requires todo + done == deps && todo !! done && dep in todo
    ensures (todo - {dep}) + (done + {dep}) == deps && (todo - {dep}) !! (done + {dep})
    ensures |todo - {dep}| < |todo|
  {
  }

  /**
    One turn of the `for dep in item_deps` loop of `create_libs_graph`:
    records the edge from `item` to `dep` and queues `dep` unless it is
    queued or visited.
   */
  method LinkDependency(graph: DepGraph, item: string, dep: string, visited: set<string>,
                        ghost queue0: seq<string>, queue: seq<string>,
                        ghost vertices: set<string>, ghost edges: set<(string, string)>, ghost done: set<string>)
    returns (queue': seq<string>)
    requires item in vertices
    requires Spans(vertices + done, edges + Fan(item, done)) && graph.nodes == Build(vertices + done, edges + Fan(item, done))
    requires Extends(queue0, queue, done, visited)
    modifies graph
    ensures Spans(vertices + (done + {dep}), edges + Fan(item, done + {dep}))
    ensures graph.nodes == Build(vertices + (done + {dep}), edges + Fan(item, done + {dep}))
    ensures Extends(queue0, queue', done + {dep}, visited)
  {
    BuildMirrored(vertices + done, edges + Fan(item, done));
    BuildWithEdge(vertices + done, edges + Fan(item, done), item, dep);
    LinkStep(vertices, edges, done, item, dep);
    graph.AddDependency(item, dep);
    ExtendsStep(queue0, queue, done, visited, dep);
    queue' := queue;
    if dep !in queue && dep !in visited {
      queue' := queue + [dep];
    }
  }

  /**
    The `for dep in item_deps` loop of `create_libs_graph`: records the edge
    from `item` to every dependency and queues each dependency that is
    neither queued nor visited.
   */
  method LinkDependencies(graph: DepGraph, item: string, deps: set<string>, visited: set<string>, queue: seq<string>,
                          ghost vertices: set<string>, ghost edges: set<(string, string)>)
    returns (queue': seq<string>)
    requires graph.Valid() && Spans(vertices, edges) && graph.nodes == Build(vertices, edges) && item in vertices
    modifies graph
    ensures graph.Valid() && Spans(vertices + deps, edges + Fan(item, deps))
    ensures graph.nodes == Build(vertices + deps, edges + Fan(item, deps))
    ensures Extends(queue, queue', deps, visited)
  {
    queue' := queue;
    var todo := deps;
    ghost var done: set<string> := {};
    assert vertices + done == vertices && edges + Fan(item, done) == edges;
    while todo != {}
      invariant todo + done == deps && todo !! done
      invariant Spans(vertices + done, edges + Fan(item, done))
      invariant graph.nodes == Build(vertices + done, edges + Fan(item, done))
      invariant Extends(queue, queue', done, visited)
      decreases |todo|
    {
      var dep :| dep in todo;
      queue' := LinkDependency(graph, item, dep, visited, queue, queue', vertices, edges, done);
      MoveOne(todo, done, deps, dep);
      done := done + {dep};
      todo := todo - {dep};
    }
    assert done == {} + done;
    BuildMirrored(vertices + deps, edges + Fan(item, deps));
  }

  /**
    The graph recorded so far: the visited names, the names they need, and
    an edge from each visited name to each name it needs.
   */
  ghost predicate Walked(expand: string -> set<string>, visited: set<string>,
                         vertices: set<string>, edges: set<(string, string)>)
  {
    && visited <= vertices
    && (forall a, b :: (a, b) in edges <==> a in visited && b in expand(a))
    && (forall k :: k in vertices ==> k in visited || exists a :: a in visited && k in expand(a))
  }

  lemma WalkedStep(expand: string -> set<string>, visited: set<string>, vertices: set<string>,
                   edges: set<(string, string)>, item: string)
    requires Walked(expand, visited, vertices, edges)
    ensures Walked(expand, visited + {item}, vertices + {item} + expand(item), edges + Fan(item, expand(item)))
  {
    var v' := vertices + {item} + expand(item);
    forall k | k in v'
      ensures k in visited + {item} || exists a :: a in visited + {item} && k in expand(a)
    {
      if k in expand(item) {
        assert item in visited + {item};
      } else if k in vertices && k !in visited {
        var a :| a in visited && k in expand(a);
        assert a in visited + {item};
      }
    }
  }

  /** Once the walk is closed, the vertices are the visited names and each one's targets are its needs. */
  lemma WalkedDone(expand: string -> set<string>, visited: set<string>, vertices: set<string>,
                   edges: set<(string, string)>)
    requires Walked(expand, visited, vertices, edges) && Closed(expand, visited)
    ensures vertices == visited
    ensures forall x :: x in visited ==> Targets(edges, x) == expand(x)
  {
  }

  /** Popping a name that was already visited queues nothing new. */
  lemma Revisit(expand: string -> set<string>, universe: set<string>, seeds: set<string>,
                visited: set<string>, queue: seq<string>, queue': seq<string>)
    requires Frontier(expand, universe, seeds, visited, queue) && |queue| > 0 && queue[|queue| - 1] in visited
    requires Extends(queue[..|queue| - 1], queue', expand(queue[|queue| - 1]), visited + {queue[|queue| - 1]})
    ensures |queue'| == |queue| - 1
  {
    var item, rest := queue[|queue| - 1], queue[..|queue| - 1];
    assert queue == rest + [item];
    assert |queue'| > |rest| ==> var y := queue'[|rest|];
      y in expand(item) && y !in visited + {item} && y !in rest && (y in visited || y in queue);
  }

  /** Visiting a name of the universe not visited before leaves fewer to visit. */
  lemma Shrinks(universe: set<string>, visited: set<string>, item: string)
    requires item in universe && item !in visited
    ensures |universe - (visited + {item})| < |universe - visited|
  {
    assert universe - visited == (universe - (visited + {item})) + {item};
  }

  lemma AddPresent(visited: set<string>, item: string)
    requires item in visited
    ensures visited + {item} == visited
  {
  }

  lemma AllLibrariesStep(libraries: map<string, Library>, visited: set<string>, item: string)
    requires forall x :: x in visited ==> Lookup(libraries, x).Some?
    requires Lookup(libraries, item).Some?
    ensures forall x :: x in visited + {item} ==> Lookup(libraries, x).Some?
  {
  }

  /** The last name of a non-empty queue lies in every closed set containing the roots. */
  lemma Popped(expand: string -> set<string>, universe: set<string>, seeds: set<string>,
               visited: set<string>, queue: seq<string>)
    requires Frontier(expand, universe, seeds, visited, queue) && |queue| > 0
    ensures queue[|queue| - 1] in universe
    ensures InEveryClosed(expand, seeds, queue[|queue| - 1])
  {
    assert queue[|queue| - 1] in queue;
  }

  /** The needs of a name the catalog knows are the dependencies stored for it. */
  lemma NeedsOf(libraries: map<string, Library>, x: string)
    requires Lookup(libraries, x).Some?
    ensures Needs(libraries)(x) == Lookup(libraries, x).value.dependencies
  {
  }

  /** The finished walk, read off the recorded graph. */
  lemma GraphDone(libraries: map<string, Library>, roots: seq<string>, universe: set<string>,
                  visited: set<string>, vertices: set<string>, edges: set<(string, string)>, nodes: map<string, Node>)
    requires Frontier(Needs(libraries), universe, Members(roots), visited, [])
    requires Walked(Needs(libraries), visited, vertices, edges) && nodes == Build(vertices, edges)
    requires forall x :: x in visited ==> Lookup(libraries, x).Some?
    ensures IsClosureOf(Needs(libraries), nodes.Keys, Members(roots))
    ensures forall x :: x in nodes ==> Lookup(libraries, x).Some? && nodes[x].outRefs == Expand(libraries, x)
  {
    FrontierDone(Needs(libraries), universe, Members(roots), visited);
    WalkedDone(Needs(libraries), visited, vertices, edges);
  }

  /** `dep` lies in every closed set containing the roots. */
  ghost predicate InEveryClosed(expand: string -> set<string>, seeds: set<string>, x: string)
  {
    forall s: set<string> :: seeds <= s && Closed(expand, s) ==> x in s
  }

  /** Every name a walk from `seeds` can meet. */
  function Universe(libraries: map<string, Library>, seeds: set<string>): (u: set<string>)
    ensures forall x :: Needs(libraries)(x) <= u
  {
    seeds + AllDependencies(libraries)
  }

  /**
    The state of `create_libs_graph` between two pops: the recorded graph so
    far, the frontier of the walk, and every visited name a library.
   */
  ghost predicate Walking(libraries: map<string, Library>, seeds: set<string>, visited: set<string>, queue: seq<string>,
                          vertices: set<string>, edges: set<(string, string)>)
  {
    && Spans(vertices, edges)
    && Walked(Needs(libraries), visited, vertices, edges)
    && Frontier(Needs(libraries), Universe(libraries, seeds), seeds, visited, queue)
    && (forall x :: x in visited ==> Lookup(libraries, x).Some?)
  }

  /**
    One turn of the `while` loop of `create_libs_graph`: pops the last name,
    fails (`ok` false, where Python raises) unless it designates a library,
    and otherwise makes its node, marks it visited and links it to its
    dependencies. Each turn either visits a new name or shortens the queue.
   */
  method VisitLast(cache: Cache, graph: DepGraph, visited: set<string>, queue: seq<string>,
                   ghost libraries: map<string, Library>, ghost seeds: set<string>,
                   ghost vertices: set<string>, ghost edges: set<(string, string)>)
    returns (ok: bool, visited': set<string>, queue': seq<string>,
             ghost vertices': set<string>, ghost edges': set<(string, string)>)
    requires libraries == cache.libraries
    requires |queue| > 0 && graph.Valid() && graph.nodes == Build(vertices, edges)
    requires Walking(libraries, seeds, visited, queue, vertices, edges)
    modifies graph
    ensures graph.Valid()
    ensures !ok ==> Lookup(libraries, queue[|queue| - 1]).None?
    ensures ok ==> graph.nodes == Build(vertices', edges') && Walking(libraries, seeds, visited', queue', vertices', edges')
    ensures ok ==> |Universe(libraries, seeds) - visited'| < |Universe(libraries, seeds) - visited| ||
                   (visited' == visited && |queue'| < |queue|)
  {
    ghost var expand := Needs(libraries);
    ghost var universe := Universe(libraries, seeds);
    var item := queue[|queue| - 1];
    var rest := queue[..|queue| - 1];
    visited', queue', vertices', edges' := visited, rest, vertices, edges;
    if !cache.IsLibrary(item) {
      return false, visited', queue', vertices', edges';
    }
    BuildWithNode(vertices, edges, item);
    var node := graph.GetNode(item);
    assert cache.libraries == libraries;
    var found := cache.GetDependencies(item, false);
    if found.None? {
      return false, visited', queue', vertices', edges';
    }
    var deps := found.value;
    NeedsOf(libraries, item);
    assert deps == expand(item);
    AllLibrariesStep(libraries, visited, item);
    Popped(expand, universe, seeds, visited, queue);
    WalkedStep(expand, visited, vertices, edges, item);
    if item !in visited {
      Shrinks(universe, visited, item);
    } else {
      AddPresent(visited, item);
    }
    visited' := visited + {item};
    queue' := LinkDependencies(graph, item, deps, visited', rest, vertices + {item}, edges);
    vertices', edges' := vertices + {item} + deps, edges + Fan(item, deps);
    FrontierStep(expand, universe, seeds, visited, queue, queue');
    if item in visited {
      Revisit(expand, universe, seeds, visited, queue, queue');
    }
    ok := true;
  }

  /**
    The `while` loop of `create_libs_graph`, run on `graph` from the given
    state to an empty queue, or until a popped name designates no library
    (`ok` false, with that name in `missing`).
   */
  method Explore(cache: Cache, graph: DepGraph, visited: set<string>, queue: seq<string>,
                 ghost libraries: map<string, Library>, ghost seeds: set<string>,
                 ghost vertices: set<string>, ghost edges: set<(string, string)>)
    returns (ok: bool, ghost missing: string, visited': set<string>,
             ghost vertices': set<string>, ghost edges': set<(string, string)>)
    requires libraries == cache.libraries
    requires graph.Valid() && graph.nodes == Build(vertices, edges)
    requires Walking(libraries, seeds, visited, queue, vertices, edges)
    modifies graph
    ensures graph.Valid()
    ensures !ok ==> Lookup(libraries, missing).None? && InEveryClosed(Needs(libraries), seeds, missing)
    ensures ok ==> graph.nodes == Build(vertices', edges') && Walking(libraries, seeds, visited', [], vertices', edges')
  {
    visited', vertices', edges' := visited, vertices, edges;
    var queue' := queue;
    while |queue'| > 0
      invariant libraries == cache.libraries
      invariant graph.Valid() && graph.nodes == Build(vertices', edges')
      invariant Walking(libraries, seeds, visited', queue', vertices', edges')
      decreases |Universe(libraries, seeds) - visited'|, |queue'|
    {
      Popped(Needs(libraries), Universe(libraries, seeds), seeds, visited', queue');
      missing := queue'[|queue'| - 1];
      ok, visited', queue', vertices', edges' := VisitLast(cache, graph, visited', queue', libraries, seeds, vertices', edges');
      if !ok {
        return;
      }
    }
    ok, missing := true, "";
  }

  /**
    `create_libs_graph`: the graph of the roots and everything they reach
    through the catalog's dependency sets. `None` where Python raises: a
    name met on the way designates no library (not catalogued, or not under
    that extension) -- and then some name of the closure is such a name.
    Otherwise the nodes are exactly the closure of the roots, each a
    library, and each node's out-set is exactly its catalog dependencies.
   */
  method CreateLibsGraph(cache: Cache, roots: seq<string>) returns (r: Option<DepGraph>)
    ensures r.Some? ==> fresh(r.value) && r.value.Valid()
    ensures r.Some? ==> IsClosureOf(Needs(cache.libraries), r.value.nodes.Keys, Members(roots))
    ensures r.Some? ==> forall x :: x in r.value.nodes ==>
                          Lookup(cache.libraries, x).Some? && r.value.nodes[x].outRefs == Expand(cache.libraries, x)
    ensures r.None? ==> exists x :: Lookup(cache.libraries, x).None? && InEveryClosed(Needs(cache.libraries), Members(roots), x)
  {
    var graph := new DepGraph();
    ghost var seeds := Members(roots);
    var ok, visited;
    ghost var missing, vertices, edges;
    ok, missing, visited, vertices, edges := Explore(cache, graph, {}, roots, cache.libraries, seeds, {}, {});
    if !ok {
      return None;
    }
    r := Some(graph);
    GraphDone(cache.libraries, roots, Universe(cache.libraries, seeds), visited, vertices, edges, r.value.nodes);
  }

  // ---------------------------------------------------------------------
  // replace_libs_with_components
  // ---------------------------------------------------------------------

  /**
    The edges once node `id` is merged into node `c`: the edges not touching
    `id` stay, and unless `c` is `id` itself, every other node with an edge
    into `id` gets one into `c` and `c` gets one to every other node `id`
    has an edge to. Edges between `id` and `c`, and a self-edge on `id`,
    leave no self-edge on `c`.
   */
  function MergeEdges(edges: set<(string, string)>, id: string, c: string): set<(string, string)>
  {
    if c == id then Without(edges, id)
    else Without(edges, id) + Into(Sources(edges, id) - {c, id}, c) + Fan(c, Targets(edges, id) - {c, id})
  }

  /** The edges recorded by the two loops and `remove_node`, in the order they run, are the merged edges. */
  lemma MergeInSteps(edges: set<(string, string)>, id: string, c: string)
    ensures var linked := edges + Into(Sources(edges, id) - {c}, c);
            Without(linked + Fan(c, Targets(linked, id) - {c}), id) == MergeEdges(edges, id, c)
  {
    var linked := edges + Into(Sources(edges, id) - {c}, c);
    assert Targets(linked, id) - {c} == Targets(edges, id) - {c};
    var l := Without(linked + Fan(c, Targets(linked, id) - {c}), id);
    var r := MergeEdges(edges, id, c);
    forall x, y | (x, y) in l
      ensures (x, y) in r
    {
    }
    forall x, y | (x, y) in r
      ensures (x, y) in l
    {
    }
  }

  /**
    The `for src in node.in_refs` loop: each node with an edge into `id`,
    other than the component node `c`, gets an edge into `c`.
   */
  method LinkSources(graph: DepGraph, sources: set<string>, c: string,
                     ghost vertices: set<string>, ghost edges: set<(string, string)>)
    requires Spans(vertices, edges) && graph.nodes == Build(vertices, edges)
    requires sources <= vertices && c in vertices
    modifies graph
    ensures Spans(vertices, edges + Into(sources - {c}, c))
    ensures graph.nodes == Build(vertices, edges + Into(sources - {c}, c))
  {
    var todo := sources;
    ghost var done: set<string> := {};
    assert edges + Into(done - {c}, c) == edges;
    while todo != {}
      invariant todo + done == sources && todo !! done
      invariant Spans(vertices, edges + Into(done - {c}, c))
      invariant graph.nodes == Build(vertices, edges + Into(done - {c}, c))
      decreases |todo|
    {
      var src :| src in todo;
      LinkSource(graph, src, c, vertices, edges, done);
      MoveOne(todo, done, sources, src);
      done := done + {src};
      todo := todo - {src};
    }
    assert done == sources;
  }

  /** One turn of the `for src in node.in_refs` loop. */
  method LinkSource(graph: DepGraph, src: string, c: string,
                    ghost vertices: set<string>, ghost edges: set<(string, string)>, ghost done: set<string>)
    requires Spans(vertices, edges + Into(done - {c}, c)) && graph.nodes == Build(vertices, edges + Into(done - {c}, c))
    requires src in vertices && c in vertices
    modifies graph
    ensures Spans(vertices, edges + Into((done + {src}) - {c}, c))
    ensures graph.nodes == Build(vertices, edges + Into((done + {src}) - {c}, c))
  {
    if src != c {
      ghost var linked := edges + Into(done - {c}, c);
      BuildMirrored(vertices, linked);
      BuildWithEdge(vertices, linked, src, c);
      IntoStep(edges, done, src, c, vertices);
      graph.AddDependency(src, c);
    } else {
      assert (done + {src}) - {c} == done - {c};
    }
  }

  lemma IntoStep(edges: set<(string, string)>, done: set<string>, src: string, c: string, vertices: set<string>)
    requires src != c && src in vertices && c in vertices
    ensures vertices + {src, c} == vertices
    ensures (edges + Into(done - {c}, c)) + {(src, c)} == edges + Into((done + {src}) - {c}, c)
  {
    assert (done + {src}) - {c} == (done - {c}) + {src};
    IntoAdd(done - {c}, c, src);
  }

  /**
    The `for tgt in node.out_refs` loop: the component node `c` gets an edge
    to each node `id` has an edge to, other than `c` itself.
   */
  method LinkTargets(graph: DepGraph, c: string, targets: set<string>,
                     ghost vertices: set<string>, ghost edges: set<(string, string)>)
    requires Spans(vertices, edges) && graph.nodes == Build(vertices, edges)
    requires targets <= vertices && c in vertices
    modifies graph
    ensures Spans(vertices, edges + Fan(c, targets - {c}))
    ensures graph.nodes == Build(vertices, edges + Fan(c, targets - {c}))
  {
    var todo := targets;
    ghost var done: set<string> := {};
    assert edges + Fan(c, done - {c}) == edges;
    while todo != {}
      invariant todo + done == targets && todo !! done
      invariant Spans(vertices, edges + Fan(c, done - {c}))
      invariant graph.nodes == Build(vertices, edges + Fan(c, done - {c}))
      decreases |todo|
    {
      var tgt :| tgt in todo;
      LinkTarget(graph, c, tgt, vertices, edges, done);
      MoveOne(todo, done, targets, tgt);
      done := done + {tgt};
      todo := todo - {tgt};
    }
    assert done == targets;
  }

  /** One turn of the `for tgt in node.out_refs` loop. */
  method LinkTarget(graph: DepGraph, c: string, tgt: string,
                    ghost vertices: set<string>, ghost edges: set<(string, string)>, ghost done: set<string>)
    requires Spans(vertices, edges + Fan(c, done - {c})) && graph.nodes == Build(vertices, edges + Fan(c, done - {c}))
    requires tgt in vertices && c in vertices
    modifies graph
    ensures Spans(vertices, edges + Fan(c, (done + {tgt}) - {c}))
    ensures graph.nodes == Build(vertices, edges + Fan(c, (done + {tgt}) - {c}))
  {
    if tgt != c {
      ghost var linked := edges + Fan(c, done - {c});
      BuildMirrored(vertices, linked);
      BuildWithEdge(vertices, linked, c, tgt);
      FanStep(edges, done, tgt, c, vertices);
      graph.AddDependency(c, tgt);
    } else {
      assert (done + {tgt}) - {c} == done - {c};
    }
  }

  lemma FanStep(edges: set<(string, string)>, done: set<string>, tgt: string, c: string, vertices: set<string>)
    requires tgt != c && tgt in vertices && c in vertices
    ensures vertices + {c, tgt} == vertices
    ensures (edges + Fan(c, done - {c})) + {(c, tgt)} == edges + Fan(c, (done + {tgt}) - {c})
  {
    assert (done + {tgt}) - {c} == (done - {c}) + {tgt};
    FanAdd(c, done - {c}, tgt);
  }

  /**
    The body of `replace_libs_with_components` for a node `id` whose
    component is `c`: the component node is made, the two loops link it,
    and `id` goes with all its edges. The graph that results holds the
    vertices with `c` in and `id` out, and the merged edges.
   */
  method MergeNode(graph: DepGraph, id: string, c: string,
                   ghost vertices: set<string>, ghost edges: set<(string, string)>)
    requires Spans(vertices, edges) && graph.nodes == Build(vertices, edges) && id in vertices
    modifies graph
    ensures graph.Valid() && Spans((vertices + {c}) - {id}, MergeEdges(edges, id, c))
    ensures graph.nodes == Build((vertices + {c}) - {id}, MergeEdges(edges, id, c))
  {
    BuildMirrored(vertices, edges);
    BuildWithNode(vertices, edges, c);
    var compNode := graph.GetNode(c);
    ghost var withC := vertices + {c};
    var sources := graph.nodes[id].inRefs;
    assert sources == Sources(edges, id);
    LinkSources(graph, sources, c, withC, edges);
    ghost var linked := edges + Into(sources - {c}, c);
    var targets := graph.nodes[id].outRefs;
    assert targets == Targets(linked, id);
    LinkTargets(graph, c, targets, withC, linked);
    ghost var all := linked + Fan(c, targets - {c});
    BuildMirrored(withC, all);
    BuildWithoutNode(withC, all, id);
    graph.RemoveNode(id);
    MergeInSteps(edges, id, c);
    BuildMirrored(withC - {id}, MergeEdges(edges, id, c));
  }

  function Grouping(index: map<string, string>): string -> Option<string>
  {
    lib => ComponentOf(index, lib)
  }

  /** `if component:` -- the node has a component and its name is not empty. */
  predicate Grouped(group: string -> Option<string>, k: string)
  {
    group(k).Some? && group(k).value != ""
  }

  /** What node `k` stands as once the nodes of `done` are handled: its component if it has one, else itself. */
  function Rep(group: string -> Option<string>, done: set<string>, k: string): string
  {
    if k in done && Grouped(group, k) then group(k).value else k
  }

  /** Both ends of `e` stand as one node and one of them was merged: the edge is gone. */
  predicate Collapsed(group: string -> Option<string>, done: set<string>, e: (string, string))
  {
    && Rep(group, done, e.0) == Rep(group, done, e.1)
    && ((e.0 in done && Grouped(group, e.0)) || (e.1 in done && Grouped(group, e.1)))
  }

  /** The nodes of the graph whose nodes `done` are merged into their components. */
  function QuotientVertices(vertices: set<string>, group: string -> Option<string>, done: set<string>): set<string>
  {
    set k | k in vertices :: Rep(group, done, k)
  }

  /** Its edges: each edge between what its ends stand as, except the collapsed ones. */
  function QuotientEdges(edges: set<(string, string)>, group: string -> Option<string>, done: set<string>): set<(string, string)>
  {
    set e | e in edges && !Collapsed(group, done, e) :: (Rep(group, done, e.0), Rep(group, done, e.1))
  }

  /** No component is named like a node of the graph. */
  ghost predicate Apart(vertices: set<string>, group: string -> Option<string>)
  {
    forall k :: k in vertices && Grouped(group, k) ==> group(k).value !in vertices
  }

  /** Before any node is handled, the quotient is the graph itself. */
  lemma QuotientOfNone(vertices: set<string>, edges: set<(string, string)>, group: string -> Option<string>)
    ensures QuotientVertices(vertices, group, {}) == vertices
    ensures QuotientEdges(edges, group, {}) == edges
  {
    assert forall k :: Rep(group, {}, k) == k;
    forall e | e in edges
      ensures e in QuotientEdges(edges, group, {})
    {
      assert !Collapsed(group, {}, e);
    }
  }

  /** Handling a node without a component changes nothing. */
  lemma QuotientSkip(vertices: set<string>, edges: set<(string, string)>, group: string -> Option<string>,
                     done: set<string>, id: string)
    requires !Grouped(group, id)
    ensures QuotientVertices(vertices, group, done + {id}) == QuotientVertices(vertices, group, done)
    ensures QuotientEdges(edges, group, done + {id}) == QuotientEdges(edges, group, done)
  {
    assert forall k :: Rep(group, done + {id}, k) == Rep(group, done, k);
    assert forall e :: Collapsed(group, done + {id}, e) == Collapsed(group, done, e);
  }

  /** Where a node stands before and after `id` is merged into its component. */
  lemma RepStep(vertices: set<string>, group: string -> Option<string>, done: set<string>, id: string, k: string)
    requires Apart(vertices, group) && id in vertices && id !in done && Grouped(group, id) && k in vertices
    ensures Rep(group, done + {id}, k) == if k == id then group(id).value else Rep(group, done, k)
    ensures Rep(group, done, k) == id <==> k == id
    ensures (k in done + {id} && Grouped(group, k)) <==> (k in done && Grouped(group, k)) || k == id
  {
  }

  /** Merging `id` into its component `c` takes the quotient's nodes from `done` to `done + {id}`. */
  lemma QuotientStepVertices(vertices: set<string>, group: string -> Option<string>, done: set<string>, id: string)
    requires Apart(vertices, group) && id in vertices && id !in done && Grouped(group, id)
    ensures (QuotientVertices(vertices, group, done) + {group(id).value}) - {id}
            == QuotientVertices(vertices, group, done + {id})
  {
    var c := group(id).value;
    var l := (QuotientVertices(vertices, group, done) + {c}) - {id};
    var r := QuotientVertices(vertices, group, done + {id});
    forall y | y in l
      ensures y in r
    {
      if y == c {
        RepStep(vertices, group, done, id, id);
      } else {
        var k :| k in vertices && y == Rep(group, done, k);
        RepStep(vertices, group, done, id, k);
      }
    }
    forall y | y in r
      ensures y in l
    {
      var k :| k in vertices && y == Rep(group, done + {id}, k);
      RepStep(vertices, group, done, id, k);
    }
  }

  /** Each merged edge is an edge of the next quotient. */
  lemma StepForward(vertices: set<string>, edges: set<(string, string)>, group: string -> Option<string>,
                    done: set<string>, id: string, x: (string, string))
    requires Spans(vertices, edges) && Apart(vertices, group) && id in vertices && id !in done && Grouped(group, id)
    requires x in MergeEdges(QuotientEdges(edges, group, done), id, group(id).value)
    ensures x in QuotientEdges(edges, group, done + {id})
  {
    var c := group(id).value;
    var q := QuotientEdges(edges, group, done);
    var e: (string, string);
    if x in Without(q, id) {
      e :| e in edges && !Collapsed(group, done, e) && x == (Rep(group, done, e.0), Rep(group, done, e.1));
    } else if x in Into(Sources(q, id) - {c, id}, c) {
      assert (x.0, id) in q;
      e :| e in edges && !Collapsed(group, done, e) && (x.0, id) == (Rep(group, done, e.0), Rep(group, done, e.1));
    } else {
      assert x in Fan(c, Targets(q, id) - {c, id});
      assert (id, x.1) in q;
      e :| e in edges && !Collapsed(group, done, e) && (id, x.1) == (Rep(group, done, e.0), Rep(group, done, e.1));
    }
    RepStep(vertices, group, done, id, e.0);
    RepStep(vertices, group, done, id, e.1);
    assert !Collapsed(group, done + {id}, e);
  }

  /** Each edge of the next quotient is a merged edge. */
  lemma StepBackward(vertices: set<string>, edges: set<(string, string)>, group: string -> Option<string>,
                     done: set<string>, id: string, x: (string, string))
    requires Spans(vertices, edges) && Apart(vertices, group) && id in vertices && id !in done && Grouped(group, id)
    requires x in QuotientEdges(edges, group, done + {id})
    ensures x in MergeEdges(QuotientEdges(edges, group, done), id, group(id).value)
  {
    var c := group(id).value;
    var q := QuotientEdges(edges, group, done);
    var e :| e in edges && !Collapsed(group, done + {id}, e) && x == (Rep(group, done + {id}, e.0), Rep(group, done + {id}, e.1));
    RepStep(vertices, group, done, id, e.0);
    RepStep(vertices, group, done, id, e.1);
    assert !Collapsed(group, done, e);
    var y := (Rep(group, done, e.0), Rep(group, done, e.1));
    assert y in q;
  }

  /** Merging `id` into its component takes the quotient's edges from `done` to `done + {id}`. */
  lemma QuotientStepEdges(vertices: set<string>, edges: set<(string, string)>, group: string -> Option<string>,
                          done: set<string>, id: string)
    requires Spans(vertices, edges) && Apart(vertices, group) && id in vertices && id !in done && Grouped(group, id)
    ensures MergeEdges(QuotientEdges(edges, group, done), id, group(id).value) == QuotientEdges(edges, group, done + {id})
  {
    forall x | x in MergeEdges(QuotientEdges(edges, group, done), id, group(id).value)
      ensures x in QuotientEdges(edges, group, done + {id})
    {
      StepForward(vertices, edges, group, done, id, x);
    }
    forall x | x in QuotientEdges(edges, group, done + {id})
      ensures x in MergeEdges(QuotientEdges(edges, group, done), id, group(id).value)
    {
      StepBackward(vertices, edges, group, done, id, x);
    }
  }

  ghost function LoadedIndex(cache: Cache): map<string, string>
    reads cache
  {
    Loaded(cache.components, cache.componentOrder, cache.libs2components)
  }

  /**
    The graph built on `vertices` and `edges` is the quotient by `done`,
    where no component is named like a node.
   */
  ghost predicate Tracks(vertices0: set<string>, edges0: set<(string, string)>, group: string -> Option<string>,
                         done: set<string>, vertices: set<string>, edges: set<(string, string)>)
  {
    Apart(vertices0, group) ==>
      vertices == QuotientVertices(vertices0, group, done) && edges == QuotientEdges(edges0, group, done)
  }

  /**
    The `if component:` of `replace_libs_with_components`: merges `id` into
    its component if it has one, and takes the quotient by `done` to the
    quotient by `done + {id}`.
   */
  method MergeIfGrouped(graph: DepGraph, id: string, component: Option<string>,
                        ghost group: string -> Option<string>, ghost done: set<string>,
                        ghost vertices0: set<string>, ghost edges0: set<(string, string)>,
                        ghost vertices: set<string>, ghost edges: set<(string, string)>)
    returns (ghost vertices': set<string>, ghost edges': set<(string, string)>)
    requires component == group(id)
    requires id in vertices && id in vertices0 && id !in done && Spans(vertices0, edges0)
    requires Spans(vertices, edges) && graph.nodes == Build(vertices, edges)
    requires Tracks(vertices0, edges0, group, done, vertices, edges)
    modifies graph
    ensures vertices - {id} <= vertices'
    ensures Spans(vertices', edges') && graph.nodes == Build(vertices', edges')
    ensures Tracks(vertices0, edges0, group, done + {id}, vertices', edges')
  {
    vertices', edges' := vertices, edges;
    if component.Some? && component.value != "" {
      MergeNode(graph, id, component.value, vertices, edges);
      if Apart(vertices0, group) {
        QuotientStepVertices(vertices0, group, done, id);
        QuotientStepEdges(vertices0, edges0, group, done, id);
      }
      vertices', edges' := (vertices + {component.value}) - {id}, MergeEdges(edges, id, component.value);
    } else {
      QuotientSkip(vertices0, edges0, group, done, id);
    }
  }

  /**
    The state of the loop of `replace_libs_with_components`: `rest` are the
    nodes present at the start not handled yet, `done` the handled ones; all
    of `rest` are still present; the graph is built on `vertices` and
    `edges`, the quotient by `done` where no component is named like a node;
    the reverse index is loaded once a node has been looked up.
   */
  ghost predicate Merging(loaded: map<string, string>, nodes: map<string, Node>,
                          held: map<string, string>, index: map<string, string>,
                          vertices0: set<string>, edges0: set<(string, string)>,
                          rest: set<string>, done: set<string>, vertices: set<string>, edges: set<(string, string)>)
  {
    && rest + done == vertices0 && rest !! done && rest <= vertices
    && Spans(vertices, edges) && nodes == Build(vertices, edges)
    && loaded == (if done == {} then held else index)
    && Tracks(vertices0, edges0, Grouping(index), done, vertices, edges)
  }

  /** One turn of the loop of `replace_libs_with_components`: the lookup, then the merge. */
  method MergeStep(cache: Cache, graph: DepGraph, rest: set<string>,
                   ghost held: map<string, string>, ghost index: map<string, string>,
                   ghost vertices0: set<string>, ghost edges0: set<(string, string)>,
                   ghost done: set<string>, ghost vertices: set<string>, ghost edges: set<(string, string)>)
    returns (rest': set<string>, ghost done': set<string>, ghost vertices': set<string>, ghost edges': set<(string, string)>)
    requires index == Loaded(cache.components, cache.componentOrder, held) && Spans(vertices0, edges0) && rest != {}
    requires Merging(cache.libs2components, graph.nodes, held, index, vertices0, edges0, rest, done, vertices, edges)
    modifies cache`libs2components, graph
    ensures Merging(cache.libs2components, graph.nodes, held, index, vertices0, edges0, rest', done', vertices', edges')
    ensures |rest'| < |rest|
  {
    var id :| id in rest;
    var component := cache.GetLibraryComponent(id);
    LoadedOnce(cache.components, cache.componentOrder, held, cache.libs2components);
    vertices', edges' := MergeIfGrouped(graph, id, component, Grouping(index), done, vertices0, edges0, vertices, edges);
    MoveOne(rest, done, vertices0, id);
    rest', done' := rest - {id}, done + {id};
  }

  /**
    The loop of `replace_libs_with_components` over the nodes present when
    it starts, `todo`.
   */
  method MergeAll(cache: Cache, graph: DepGraph, todo: set<string>,
                  ghost held: map<string, string>, ghost index: map<string, string>,
                  ghost vertices0: set<string>, ghost edges0: set<(string, string)>)
    returns (ghost vertices: set<string>, ghost edges: set<(string, string)>)
    requires index == Loaded(cache.components, cache.componentOrder, held) && Spans(vertices0, edges0)
    requires Merging(cache.libs2components, graph.nodes, held, index, vertices0, edges0, todo, {}, vertices0, edges0)
    modifies cache`libs2components, graph
    ensures Merging(cache.libs2components, graph.nodes, held, index, vertices0, edges0, {}, vertices0, vertices, edges)
  {
    vertices, edges := vertices0, edges0;
    ghost var done := {};
    var rest := todo;
    while rest != {}
      invariant Merging(cache.libs2components, graph.nodes, held, index, vertices0, edges0, rest, done, vertices, edges)
      decreases |rest|
    {
      rest, done, vertices, edges := MergeStep(cache, graph, rest, held, index, vertices0, edges0, done, vertices, edges);
    }
  }

  /**
    `replace_libs_with_components`: each node that has a component is merged
    into the node of its component. The first lookup loads the catalog's
    reverse index (when the graph has a node to look up). Where no component
    is named like a node, the graph becomes the quotient of the one given:
    each node stands as its component, or as itself if it has none, each
    edge joins what its two ends stand as, and an edge between nodes that
    stand as one component is gone.
   */
  method ReplaceLibsWithComponents(cache: Cache, graph: DepGraph)
    requires graph.Valid()
    modifies cache`libs2components, graph
    ensures graph.Valid()
    ensures cache.libs2components == if old(graph.nodes) == map[] then old(cache.libs2components) else old(LoadedIndex(cache))
    ensures Apart(old(graph.nodes).Keys, Grouping(old(LoadedIndex(cache)))) ==>
              graph.nodes == Build(QuotientVertices(old(graph.nodes).Keys, Grouping(old(LoadedIndex(cache))), old(graph.nodes).Keys),
                                   QuotientEdges(EdgesOf(old(graph.nodes)), Grouping(old(LoadedIndex(cache))), old(graph.nodes).Keys))
  {
    ghost var held, index := cache.libs2components, LoadedIndex(cache);
    ghost var vertices0, edges0 := graph.nodes.Keys, EdgesOf(graph.nodes);
    MirroredIsBuilt(graph.nodes);
    QuotientOfNone(vertices0, edges0, Grouping(index));
    var todo := graph.GetKeys();
    assert todo == vertices0;
    ghost var vertices, edges := MergeAll(cache, graph, todo, held, index, vertices0, edges0);
    MergingDone(cache.libs2components, graph.nodes, held, index, vertices0, edges0, vertices, edges);
    assert vertices0 == {} <==> old(graph.nodes) == map[];
  }

  lemma MergingDone(loaded: map<string, string>, nodes: map<string, Node>,
                    held: map<string, string>, index: map<string, string>,
                    vertices0: set<string>, edges0: set<(string, string)>, vertices: set<string>, edges: set<(string, string)>)
    requires Merging(loaded, nodes, held, index, vertices0, edges0, {}, vertices0, vertices, edges)
    ensures Mirrored(nodes)
    ensures loaded == if vertices0 == {} then held else index
    ensures Apart(vertices0, Grouping(index)) ==>
              nodes == Build(QuotientVertices(vertices0, Grouping(index), vertices0), QuotientEdges(edges0, Grouping(index), vertices0))
  {
    BuildMirrored(vertices, edges);
  }

  /** Once every node is handled, no library that has a component is left as a node. */
  lemma QuotientDropsMembers(vertices: set<string>, group: string -> Option<string>, k: string)
    requires Apart(vertices, group) && k in vertices && Grouped(group, k)
    ensures k !in QuotientVertices(vertices, group, vertices)
  {
    forall j | j in vertices
      ensures Rep(group, vertices, j) != k
    {
      if Grouped(group, j) {
        assert group(j).value !in vertices;
      }
    }
  }

  /** A component node gets no edge to itself: the edges among its members are gone. */
  lemma QuotientNoSelfEdge(vertices: set<string>, edges: set<(string, string)>, group: string -> Option<string>, c: string)
    requires Spans(vertices, edges) && Apart(vertices, group) && c !in vertices
    ensures (c, c) !in QuotientEdges(edges, group, vertices)
  {
    forall e | e in edges && Rep(group, vertices, e.0) == c && Rep(group, vertices, e.1) == c
      ensures Collapsed(group, vertices, e)
    {
      assert e.0 in vertices;
    }
  }

  /** An edge between two libraries without a component stays as it is. */
  lemma QuotientKeepsOthers(vertices: set<string>, edges: set<(string, string)>, group: string -> Option<string>, a: string, b: string)
    requires (a, b) in edges && !Grouped(group, a) && !Grouped(group, b)
    ensures (a, b) in QuotientEdges(edges, group, vertices)
  {
    assert !Collapsed(group, vertices, (a, b));
  }

  /** An edge from a member of component `c` to a library without one becomes an edge from `c`. */
  lemma QuotientReroutes(vertices: set<string>, edges: set<(string, string)>, group: string -> Option<string>, a: string, b: string)
    requires Spans(vertices, edges) && Apart(vertices, group) && (a, b) in edges && Grouped(group, a) && !Grouped(group, b)
    ensures (group(a).value, b) in QuotientEdges(edges, group, vertices)
  {
    assert a in vertices && b in vertices;
    assert !Collapsed(group, vertices, (a, b));
  }

  // ---------------------------------------------------------------------
  // quote_lib_name, format_lib
  // ---------------------------------------------------------------------

  /** `quote_lib_name`: the name between two copies of the quote, if the quote is not empty. */
  function QuoteLibName(name: string, quote: string): (r: string)
    ensures quote == "" ==> r == name
    ensures quote != "" ==> |r| == |name| + 2 * |quote|
    ensures quote != "" ==> r[..|quote|] == quote && r[|quote|..|quote| + |name|] == name && r[|quote| + |name|..] == quote
  {
    if quote != "" then quote + name + quote else name
  }

  /**
    `format_lib` on one name: in `"short"` mode the stripped name, otherwise
    the name as given, quoted.
   */
  function FormatLib(name: string, mode: string, quote: string): (r: string)
    ensures quote == "" && mode != "short" ==> r == name
    ensures quote == "" && mode == "short" ==> r == StripLibraryName(name)
    ensures quote != "" ==>
      var shown := if mode == "short" then StripLibraryName(name) else name;
      |r| == |shown| + 2 * |quote| && r[..|quote|] == quote && r[|quote|..|quote| + |shown|] == shown && r[|quote| + |shown|..] == quote
  {
    QuoteLibName(if mode == "short" then StripLibraryName(name) else name, quote)
  }

  /** `format_lib` on a list: each name formatted, in order. */
  function FormatLibs(names: seq<string>, mode: string, quote: string): (r: seq<string>)
    ensures |r| == |names|
    ensures forall i :: 0 <= i < |names| ==> r[i] == FormatLib(names[i], mode, quote)
  {
    seq(|names|, i requires 0 <= i < |names| => FormatLib(names[i], mode, quote))
  }

  // ---------------------------------------------------------------------
  // minimize_dependencies_list
  // ---------------------------------------------------------------------

  /** `list.remove(d)` with the `ValueError` of an absent `d` ignored: the first `d` goes, if any. */
  function RemoveFirst(s: seq<string>, d: string): (r: seq<string>)
    ensures multiset(r) == multiset(s) - multiset{d}
  {
    if s == [] then []
    else
      assert s == [s[0]] + s[1..];
      if s[0] == d then s[1..]
      else
        var r := [s[0]] + RemoveFirst(s[1..], d);
        assert multiset(r) == multiset{s[0]} + multiset(RemoveFirst(s[1..], d));
        r
  }

  /** The list with, for each name, its first `m[name]` occurrences removed. */
  function Drop(s: seq<string>, m: multiset<string>): seq<string>
  {
    if s == [] then []
    else if m[s[0]] > 0 then Drop(s[1..], m - multiset{s[0]})
    else [s[0]] + Drop(s[1..], m)
  }

  /** Removing the first `d` from the list after `m` is removing `m` and one more `d`. */
  lemma {:induction false} DropRemoveFirst(s: seq<string>, m: multiset<string>, d: string)
    ensures RemoveFirst(Drop(s, m), d) == Drop(s, m + multiset{d})
    decreases |s|
  {
    if s != [] {
      var x := s[0];
      if m[x] > 0 {
        DropRemoveFirst(s[1..], m - multiset{x}, d);
        assert m - multiset{x} + multiset{d} == m + multiset{d} - multiset{x};
      } else if x == d {
        assert m + multiset{d} - multiset{d} == m;
      } else {
        DropRemoveFirst(s[1..], m, d);
      }
    }
  }

  /** Exactly `m` is taken out of the list (as far as the list holds it). */
  lemma {:induction false} DropCount(s: seq<string>, m: multiset<string>)
    ensures multiset(Drop(s, m)) == multiset(s) - m
    decreases |s|
  {
    if s != [] {
      var x := s[0];
      assert multiset(s) == multiset{x} + multiset(s[1..]) by {
        assert s == [x] + s[1..];
      }
      if m[x] > 0 {
        DropCount(s[1..], m - multiset{x});
      } else {
        DropCount(s[1..], m);
        assert multiset([x] + Drop(s[1..], m)) == multiset{x} + multiset(Drop(s[1..], m));
      }
    }
  }

  /** A name stays exactly when the list holds it more often than `m` asks to remove it. */
  lemma DropMember(s: seq<string>, m: multiset<string>, x: string)
    ensures x in Drop(s, m) <==> multiset(s)[x] > m[x]
  {
    DropCount(s, m);
    assert x in Drop(s, m) <==> x in multiset(Drop(s, m));
  }

  /** `a` is `b` with some entries deleted, the rest in their order. */
  predicate Subsequence(a: seq<string>, b: seq<string>)
    decreases |b|
  {
    if a == [] then true
    else if b == [] then false
    else if a[0] == b[0] then Subsequence(a[1..], b[1..])
    else Subsequence(a, b[1..])
  }

  /** A subsequence of the tail is a subsequence. */
  lemma {:induction false} SubsequenceOfTail(a: seq<string>, b: seq<string>)
    requires b != [] && Subsequence(a, b[1..])
    ensures Subsequence(a, b)
    decreases |b|, 0
  {
    if a != [] && a[0] == b[0] {
      SubsequenceDropHead(a, b[1..]);
    }
  }

  /** Deleting the head of a subsequence leaves a subsequence. */
  lemma {:induction false} SubsequenceDropHead(a: seq<string>, b: seq<string>)
    requires a != [] && Subsequence(a, b)
    ensures Subsequence(a[1..], b)
    decreases |b|, 1
  {
    if a[0] == b[0] {
      SubsequenceOfTail(a[1..], b);
    } else {
      SubsequenceDropHead(a, b[1..]);
      SubsequenceOfTail(a[1..], b);
    }
  }

  /** Removal keeps the order of what stays. */
  lemma {:induction false} DropSubsequence(s: seq<string>, m: multiset<string>)
    ensures Subsequence(Drop(s, m), s)
    decreases |s|
  {
    if s != [] {
      if m[s[0]] > 0 {
        DropSubsequence(s[1..], m - multiset{s[0]});
        if Drop(s, m) != [] {
          SubsequenceOfTail(Drop(s, m), s);
        }
      } else {
        DropSubsequence(s[1..], m);
        assert ([s[0]] + Drop(s[1..], m))[1..] == Drop(s[1..], m);
      }
    }
  }

  /** Every direct dependency of the listed libraries, once per library that has it. */
  function Requested(expand: string -> set<string>, libs: seq<string>): multiset<string>
  {
    if libs == [] then multiset{}
    else Requested(expand, libs[..|libs| - 1]) + multiset(expand(libs[|libs| - 1]))
  }

  /**
    The `for d in deps` loop of `minimize_dependencies_list`: removes the
    first occurrence of each dependency still in the list.
   */
  method RemoveDependencies(result: seq<string>, deps: set<string>, ghost libs: seq<string>, ghost m: multiset<string>)
    returns (result': seq<string>)
    requires result == Drop(libs, m)
    ensures result' == Drop(libs, m + multiset(deps))
  {
    result' := result;
    var todo := deps;
    ghost var done: set<string> := {};
    assert m + multiset(done) == m;
    while todo != {}
      invariant todo + done == deps && todo !! done
      invariant result' == Drop(libs, m + multiset(done))
      decreases |todo|
    {
      var d :| d in todo;
      DropRemoveFirst(libs, m + multiset(done), d);
      MultisetAdd(m, done, d);
      result' := RemoveFirst(result', d);
      MoveOne(todo, done, deps, d);
      done := done + {d};
      todo := todo - {d};
    }
    assert done == deps;
  }

  lemma MultisetAdd(m: multiset<string>, done: set<string>, d: string)
    requires d !in done
    ensures (m + multiset(done)) + multiset{d} == m + multiset(done + {d})
  {
    assert multiset(done + {d}) == multiset(done) + multiset{d};
  }

  /**
    `minimize_dependencies_list`: the list without, for each library listed,
    one occurrence of each of its direct dependencies (the first one left).
    `None` where Python raises: a listed name is not a library.
   */
  method MinimizeDependenciesList(cache: Cache, libs: seq<string>) returns (r: Option<seq<string>>)
    ensures r.Some? <==> AllListed(cache.libraries, libs)
    ensures r.Some? ==> r.value == Drop(libs, Requested(Needs(cache.libraries), libs))
  {
    ghost var need := Needs(cache.libraries);
    var result := libs;
    assert Drop(libs, multiset{}) == libs by {
      DropCount(libs, multiset{});
      DropSubsequence(libs, multiset{});
      DropNone(libs);
    }
    ghost var libraries := cache.libraries;
    for i := 0 to |libs|
      invariant AllListed(libraries, libs[..i])
      invariant result == Drop(libs, Requested(need, libs[..i]))
    {
      var next := MinimizeOne(cache, libs, i, result, libraries, need);
      if next.None? {
        assert libs[i] in libs;
        return None;
      }
      result := next.value;
    }
    assert libs[..|libs|] == libs;
    r := Some(result);
  }

  /** One turn of the loop of `minimize_dependencies_list`, on `libs[i]`. */
  method MinimizeOne(cache: Cache, libs: seq<string>, i: nat, result: seq<string>,
                     ghost libraries: map<string, Library>, ghost need: string -> set<string>)
    returns (r: Option<seq<string>>)
    requires libraries == cache.libraries && need == Needs(libraries) && i < |libs|
    requires AllListed(libraries, libs[..i]) && result == Drop(libs, Requested(need, libs[..i]))
    ensures r.Some? <==> Lookup(libraries, libs[i]).Some?
    ensures r.Some? ==> AllListed(libraries, libs[..i + 1]) && r.value == Drop(libs, Requested(need, libs[..i + 1]))
  {
    var deps := cache.GetDependencies(libs[i], false);
    if deps.None? {
      return None;
    }
    ListedStep(libraries, libs, i);
    NeedsOf(libraries, libs[i]);
    RequestedStep(need, libs, i);
    var removed := RemoveDependencies(result, deps.value, libs, Requested(need, libs[..i]));
    r := Some(removed);
  }

  /** Every listed name is a library of the table. */
  ghost predicate AllListed(libraries: map<string, Library>, libs: seq<string>)
  {
    forall l :: l in libs ==> Lookup(libraries, l).Some?
  }

  lemma ListedStep(libraries: map<string, Library>, libs: seq<string>, i: nat)
    requires i < |libs| && AllListed(libraries, libs[..i]) && Lookup(libraries, libs[i]).Some?
    ensures AllListed(libraries, libs[..i + 1])
  {
    PrefixStep(libs, i);
  }

  lemma RequestedStep(expand: string -> set<string>, libs: seq<string>, i: nat)
    requires i < |libs|
    ensures Requested(expand, libs[..i + 1]) == Requested(expand, libs[..i]) + multiset(expand(libs[i]))
  {
    assert libs[..i + 1][..i] == libs[..i];
  }

  lemma PrefixStep(s: seq<string>, i: nat)
    requires i < |s|
    ensures forall x :: x in s[..i + 1] ==> x in s[..i] || x == s[i]
  {
    assert s[..i + 1] == s[..i] + [s[i]];
  }

  lemma {:induction false} DropNone(s: seq<string>)
    ensures Drop(s, multiset{}) == s
    decreases |s|
  {
    if s != [] {
      DropNone(s[1..]);
    }
  }

  // ---------------------------------------------------------------------
  // expand_args_to_libraries
  // ---------------------------------------------------------------------

  /** What one argument stands for: a package's libraries, else a component's libraries, else itself. */
  function ExpandItem(cache: Cache, item: string): set<string>
    reads cache
  {
    if cache.IsPackage(item) then cache.PackageLibraries(item)
    else if cache.IsComponent(item) then cache.GetComponentLibraries(item)
    else {item}
  }

  /** `expand_args_to_libraries`: the union of what each argument stands for. */
  method ExpandArgsToLibraries(cache: Cache, items: seq<string>) returns (libraries: set<string>)
    ensures forall x :: x in libraries <==> exists i :: 0 <= i < |items| && x in ExpandItem(cache, items[i])
  {
    libraries := {};
    for i := 0 to |items|
      invariant forall x :: x in libraries <==> exists j :: 0 <= j < i && x in ExpandItem(cache, items[j])
    {
      if cache.IsPackage(items[i]) {
        libraries := libraries + cache.PackageLibraries(items[i]);
      } else if cache.IsComponent(items[i]) {
        libraries := libraries + cache.GetComponentLibraries(items[i]);
      } else {
        libraries := libraries + {items[i]};
      }
    }
  }
}
