/**
  The dependency graph of graphs.py: a table of nodes keyed by name, each node
  holding the names of the nodes that depend on it (`inRefs`) and of the nodes
  it depends on (`outRefs`). Python links node objects; a node is identified by
  its name in the table, so the model keeps names in the two sets.
 */
module Graphs {

  /** `DepGraphNode`: its in- and out-references (its name is its key in the table). */
  datatype Node = Node(inRefs: set<string>, outRefs: set<string>)
  {
    /** `is_root`: nothing depends on the node. */
    function IsRoot(): (r: bool)
      ensures r <==> inRefs == {}
    {
      |inRefs| == 0
    }
  }

  const EmptyNode := Node({}, {})

  /** Every edge is recorded at both ends: `b` in the out-set of `a` exactly when `a` is in the in-set of `b`. */
  ghost predicate Mirrored(nodes: map<string, Node>)
  {
    && (forall a, b :: a in nodes && b in nodes[a].outRefs ==> b in nodes && a in nodes[b].inRefs)
    && (forall a, b :: a in nodes && b in nodes[a].inRefs ==> b in nodes && a in nodes[b].outRefs)
  }

  /** The node `get_node` finds or makes: the stored one, or a fresh node with no edges. */
  function NodeOf(nodes: map<string, Node>, id: string): Node
  {
    if id in nodes then nodes[id] else EmptyNode
  }

  /** The table after `get_node(id)`: `id` is present, and an absent `id` gets a fresh node. */
  function WithNode(nodes: map<string, Node>, id: string): (r: map<string, Node>)
    ensures r.Keys == nodes.Keys + {id}
    ensures forall k :: k in r ==> r[k] == NodeOf(nodes, k)
  {
    if id in nodes then nodes else nodes[id := EmptyNode]
  }

  /** The table after `add_dependency(src, tgt)`. */
  function WithEdge(nodes: map<string, Node>, src: string, tgt: string): (r: map<string, Node>)
    ensures r.Keys == nodes.Keys + {src, tgt}
    ensures tgt in r[src].outRefs && src in r[tgt].inRefs
  {
    var n := WithNode(WithNode(nodes, src), tgt);
    var n1 := n[src := n[src].(outRefs := n[src].outRefs + {tgt})];
    n1[tgt := n1[tgt].(inRefs := n1[tgt].inRefs + {src})]
  }

  /** The table after a `remove_dependency(src, tgt)` that finds the edge. */
  function WithoutEdge(nodes: map<string, Node>, src: string, tgt: string): (r: map<string, Node>)
    requires src in nodes && tgt in nodes
    ensures r.Keys == nodes.Keys
    ensures tgt !in r[src].outRefs && src !in r[tgt].inRefs
  {
    var n1 := nodes[src := nodes[src].(outRefs := nodes[src].outRefs - {tgt})];
    n1[tgt := n1[tgt].(inRefs := n1[tgt].inRefs - {src})]
  }

  /** The table once node `id` and every edge touching it are gone. */
  function WithoutNode(nodes: map<string, Node>, id: string): (r: map<string, Node>)
    ensures r.Keys == nodes.Keys - {id}
    ensures forall k :: k in r ==> id !in r[k].inRefs && id !in r[k].outRefs
  {
    map k | k in nodes && k != id :: Node(nodes[k].inRefs - {id}, nodes[k].outRefs - {id})
  }

  /** `get_node` changes nothing but the presence of `id`, and keeps the mirror. */
  lemma WithNodeMirrored(nodes: map<string, Node>, id: string)
    requires Mirrored(nodes)
    ensures Mirrored(WithNode(nodes, id))
  {
  }

  /**
    `add_dependency(src, tgt)` adds exactly the edge: the out-set of `src`
    gains `tgt`, the in-set of `tgt` gains `src`, and every other set is as
    it was (a node `get_node` made starts empty).
   */
  lemma WithEdgeExactly(nodes: map<string, Node>, src: string, tgt: string)
    ensures var r := WithEdge(nodes, src, tgt);
            forall k :: k in r ==>
              && r[k].outRefs == NodeOf(nodes, k).outRefs + (if k == src then {tgt} else {})
              && r[k].inRefs == NodeOf(nodes, k).inRefs + (if k == tgt then {src} else {})
  {
    forall k | k in WithEdge(nodes, src, tgt) {
      WithEdgeAt(nodes, src, tgt, k);
    }
  }

  lemma WithEdgeAt(nodes: map<string, Node>, src: string, tgt: string, k: string)
    requires k in WithEdge(nodes, src, tgt)
    ensures WithEdge(nodes, src, tgt)[k].outRefs == NodeOf(nodes, k).outRefs + (if k == src then {tgt} else {})
    ensures WithEdge(nodes, src, tgt)[k].inRefs == NodeOf(nodes, k).inRefs + (if k == tgt then {src} else {})
  {
  }

  lemma WithEdgeMirrored(nodes: map<string, Node>, src: string, tgt: string)
    requires Mirrored(nodes)
    ensures Mirrored(WithEdge(nodes, src, tgt))
  {
    var r := WithEdge(nodes, src, tgt);
    forall a, b | a in r && b in r[a].outRefs
      ensures b in r && a in r[b].inRefs
    {
      WithEdgeAt(nodes, src, tgt, a);
      if !(a == src && b == tgt) {
        assert a in nodes && b in nodes[a].outRefs;
        WithEdgeAt(nodes, src, tgt, b);
      }
    }
    forall a, b | a in r && b in r[a].inRefs
      ensures b in r && a in r[b].outRefs
    {
      WithEdgeAt(nodes, src, tgt, a);
      if !(a == tgt && b == src) {
        assert a in nodes && b in nodes[a].inRefs;
        WithEdgeAt(nodes, src, tgt, b);
      }
    }
  }

  lemma NodeOfWithNode(nodes: map<string, Node>, id: string, k: string)
    ensures NodeOf(WithNode(nodes, id), k) == NodeOf(nodes, k)
  {
  }

  /** Adding an edge twice is adding it once. */
  lemma WithEdgeIdempotent(nodes: map<string, Node>, src: string, tgt: string)
    ensures WithEdge(WithEdge(nodes, src, tgt), src, tgt) == WithEdge(nodes, src, tgt)
  {
    var once := WithEdge(nodes, src, tgt);
    var twice := WithEdge(once, src, tgt);
    WithEdgeExactly(nodes, src, tgt);
    WithEdgeExactly(once, src, tgt);
    forall k | k in twice
      ensures twice[k] == once[k]
    {
      assert NodeOf(once, k) == once[k];
    }
  }

  /** `add_dependency` does not refuse `src == tgt`: the node then depends on itself. */
  lemma SelfEdgeRecorded(nodes: map<string, Node>, a: string)
    ensures var r := WithEdge(nodes, a, a);
            a in r[a].outRefs && a in r[a].inRefs
  {
  }

  /**
    `remove_dependency(src, tgt)` removes exactly the edge: the out-set of `src`
    loses `tgt`, the in-set of `tgt` loses `src`, every other set is as it was.
   */
  lemma WithoutEdgeExactly(nodes: map<string, Node>, src: string, tgt: string)
    requires src in nodes && tgt in nodes
    ensures var r := WithoutEdge(nodes, src, tgt);
            forall k :: k in r ==>
              && r[k].outRefs == nodes[k].outRefs - (if k == src then {tgt} else {})
              && r[k].inRefs == nodes[k].inRefs - (if k == tgt then {src} else {})
  {
    forall k | k in WithoutEdge(nodes, src, tgt) {
      WithoutEdgeAt(nodes, src, tgt, k);
    }
  }

  lemma WithoutEdgeAt(nodes: map<string, Node>, src: string, tgt: string, k: string)
    requires src in nodes && tgt in nodes && k in nodes
    ensures WithoutEdge(nodes, src, tgt)[k].outRefs == nodes[k].outRefs - (if k == src then {tgt} else {})
    ensures WithoutEdge(nodes, src, tgt)[k].inRefs == nodes[k].inRefs - (if k == tgt then {src} else {})
  {
  }

  lemma WithoutEdgeMirrored(nodes: map<string, Node>, src: string, tgt: string)
    requires Mirrored(nodes) && src in nodes && tgt in nodes
    ensures Mirrored(WithoutEdge(nodes, src, tgt))
  {
    WithoutEdgeExactly(nodes, src, tgt);
  }

  lemma WithoutNodeMirrored(nodes: map<string, Node>, id: string)
    requires Mirrored(nodes)
    ensures Mirrored(WithoutNode(nodes, id))
  {
  }

  /**
    Adding an edge that was absent and removing it again leaves every node's
    in- and out-set as before; only the nodes `get_node` made remain, empty.
   */
  lemma AddThenRemove(nodes: map<string, Node>, src: string, tgt: string)
    requires Mirrored(nodes)
    requires src in nodes ==> tgt !in nodes[src].outRefs
    ensures WithoutEdge(WithEdge(nodes, src, tgt), src, tgt) == WithNode(WithNode(nodes, src), tgt)
  {
    var added := WithEdge(nodes, src, tgt);
    var r := WithoutEdge(added, src, tgt);
    var expected := WithNode(WithNode(nodes, src), tgt);
    assert tgt !in NodeOf(nodes, src).outRefs;
    assert src !in NodeOf(nodes, tgt).inRefs;
    forall k | k in r
      ensures r[k] == expected[k]
    {
      AddThenRemoveAt(nodes, src, tgt, k);
    }
  }

  lemma AddThenRemoveAt(nodes: map<string, Node>, src: string, tgt: string, k: string)
    requires tgt !in NodeOf(nodes, src).outRefs && src !in NodeOf(nodes, tgt).inRefs
    requires k in nodes.Keys + {src, tgt}
    ensures WithoutEdge(WithEdge(nodes, src, tgt), src, tgt)[k] == NodeOf(nodes, k)
  {
    var added := WithEdge(nodes, src, tgt);
    WithEdgeAt(nodes, src, tgt, k);
    WithoutEdgeAt(added, src, tgt, k);
  }

  /** The node table holding exactly `vertices` and the directed `edges`. */
  function Build(vertices: set<string>, edges: set<(string, string)>): (r: map<string, Node>)
    ensures r.Keys == vertices
  {
    map k | k in vertices :: Node(Sources(edges, k), Targets(edges, k))
  }

  function Sources(edges: set<(string, string)>, k: string): (r: set<string>)
    ensures forall a :: a in r <==> (a, k) in edges
  {
    set e | e in edges && e.1 == k :: e.0
  }

  function Targets(edges: set<(string, string)>, k: string): (r: set<string>)
    ensures forall b :: b in r <==> (k, b) in edges
  {
    set e | e in edges && e.0 == k :: e.1
  }

  /** Every edge joins two of the vertices. */
  ghost predicate Spans(vertices: set<string>, edges: set<(string, string)>)
  {
    forall a, b :: (a, b) in edges ==> a in vertices && b in vertices
  }

  lemma BuildMirrored(vertices: set<string>, edges: set<(string, string)>)
    requires Spans(vertices, edges)
    ensures Mirrored(Build(vertices, edges))
  {
  }

  lemma OutsideSpan(vertices: set<string>, edges: set<(string, string)>, k: string)
    requires Spans(vertices, edges) && k !in vertices
    ensures Sources(edges, k) == {} && Targets(edges, k) == {}
  {
  }

  lemma SourcesTargetsAdd(edges: set<(string, string)>, a: string, b: string, k: string)
    ensures Sources(edges + {(a, b)}, k) == Sources(edges, k) + (if k == b then {a} else {})
    ensures Targets(edges + {(a, b)}, k) == Targets(edges, k) + (if k == a then {b} else {})
  {
  }

  /** The node of `k` in the built table, present or not. */
  lemma BuildNodeOf(vertices: set<string>, edges: set<(string, string)>, k: string)
    requires Spans(vertices, edges)
    ensures NodeOf(Build(vertices, edges), k) == Node(Sources(edges, k), Targets(edges, k))
  {
    if k !in vertices {
      OutsideSpan(vertices, edges, k);
    }
  }

  lemma BuildWithNode(vertices: set<string>, edges: set<(string, string)>, a: string)
    requires Spans(vertices, edges)
    ensures WithNode(Build(vertices, edges), a) == Build(vertices + {a}, edges)
    ensures Spans(vertices + {a}, edges)
  {
    var l := WithNode(Build(vertices, edges), a);
    var r := Build(vertices + {a}, edges);
    forall k | k in r
      ensures l[k] == r[k]
    {
      BuildNodeOf(vertices, edges, k);
    }
  }

  lemma BuildWithEdgeAt(vertices: set<string>, edges: set<(string, string)>, a: string, b: string, k: string)
    requires Spans(vertices, edges) && k in vertices + {a, b}
    ensures WithEdge(Build(vertices, edges), a, b)[k] == Build(vertices + {a, b}, edges + {(a, b)})[k]
  {
    WithEdgeAt(Build(vertices, edges), a, b, k);
    BuildNodeOf(vertices, edges, k);
    SourcesTargetsAdd(edges, a, b, k);
  }

  lemma BuildWithEdge(vertices: set<string>, edges: set<(string, string)>, a: string, b: string)
    requires Spans(vertices, edges)
    ensures WithEdge(Build(vertices, edges), a, b) == Build(vertices + {a, b}, edges + {(a, b)})
    ensures Spans(vertices + {a, b}, edges + {(a, b)})
  {
    var l := WithEdge(Build(vertices, edges), a, b);
    var r := Build(vertices + {a, b}, edges + {(a, b)});
    forall k | k in r
      ensures l[k] == r[k]
    {
      BuildWithEdgeAt(vertices, edges, a, b, k);
    }
  }

  lemma SourcesTargetsRemove(edges: set<(string, string)>, a: string, b: string, k: string)
    ensures Sources(edges - {(a, b)}, k) == Sources(edges, k) - (if k == b then {a} else {})
    ensures Targets(edges - {(a, b)}, k) == Targets(edges, k) - (if k == a then {b} else {})
  {
  }

  /** Removing an edge of a built table builds the table without that edge. */
  lemma BuildWithoutEdge(vertices: set<string>, edges: set<(string, string)>, a: string, b: string)
    requires Spans(vertices, edges) && (a, b) in edges
    ensures a in vertices && b in vertices
    ensures WithoutEdge(Build(vertices, edges), a, b) == Build(vertices, edges - {(a, b)})
    ensures Spans(vertices, edges - {(a, b)})
  {
    var l := WithoutEdge(Build(vertices, edges), a, b);
    var r := Build(vertices, edges - {(a, b)});
    forall k | k in r
      ensures l[k] == r[k]
    {
      WithoutEdgeAt(Build(vertices, edges), a, b, k);
      SourcesTargetsRemove(edges, a, b, k);
    }
  }

  /** The edges from each of `sources` to `b`. */
  function Into(sources: set<string>, b: string): (r: set<(string, string)>)
    ensures forall x, y :: (x, y) in r <==> x in sources && y == b
  {
    set x | x in sources :: (x, b)
  }

  /** The edges from `a` to each of `targets`. */
  function Fan(a: string, targets: set<string>): (r: set<(string, string)>)
    ensures forall x, y :: (x, y) in r <==> x == a && y in targets
  {
    set y | y in targets :: (a, y)
  }

  lemma IntoAdd(sources: set<string>, b: string, a: string)
    ensures Into(sources + {a}, b) == Into(sources, b) + {(a, b)}
  {
  }

  lemma FanAdd(a: string, targets: set<string>, b: string)
    ensures Fan(a, targets + {b}) == Fan(a, targets) + {(a, b)}
  {
  }

  /** The edges that do not touch `id`. */
  function Without(edges: set<(string, string)>, id: string): (r: set<(string, string)>)
    ensures forall a, b :: (a, b) in r <==> (a, b) in edges && a != id && b != id
  {
    set e | e in edges && e.0 != id && e.1 != id
  }

  /** Removing a node from a built table removes it from the vertices and every edge touching it. */
  lemma BuildWithoutNode(vertices: set<string>, edges: set<(string, string)>, id: string)
    requires Spans(vertices, edges)
    ensures WithoutNode(Build(vertices, edges), id) == Build(vertices - {id}, Without(edges, id))
    ensures Spans(vertices - {id}, Without(edges, id))
  {
    var l := WithoutNode(Build(vertices, edges), id);
    var r := Build(vertices - {id}, Without(edges, id));
    forall k | k in r
      ensures l[k] == r[k]
    {
      assert Sources(Without(edges, id), k) == Sources(edges, k) - {id};
      assert Targets(Without(edges, id), k) == Targets(edges, k) - {id};
    }
  }

  /** The edges a node table records, read off the out-sets. */
  function EdgesOf(nodes: map<string, Node>): (r: set<(string, string)>)
    ensures forall a, b :: (a, b) in r <==> a in nodes && b in nodes[a].outRefs
  {
    set a, b | a in nodes && b in nodes[a].outRefs :: (a, b)
  }

  /** A table whose edges are recorded at both ends is the table built from its keys and its edges. */
  lemma MirroredIsBuilt(nodes: map<string, Node>)
    requires Mirrored(nodes)
    ensures Spans(nodes.Keys, EdgesOf(nodes))
    ensures nodes == Build(nodes.Keys, EdgesOf(nodes))
  {
    forall a, b | (a, b) in EdgesOf(nodes)
      ensures a in nodes && b in nodes
    {
      MirroredOut(nodes, a, b);
    }
    var r := Build(nodes.Keys, EdgesOf(nodes));
    forall k | k in r
      ensures nodes[k] == r[k]
    {
      MirroredAt(nodes, k);
    }
  }

  lemma MirroredOut(nodes: map<string, Node>, a: string, b: string)
    requires Mirrored(nodes) && a in nodes && b in nodes[a].outRefs
    ensures b in nodes && a in nodes[b].inRefs
  {
  }

  lemma MirroredAt(nodes: map<string, Node>, k: string)
    requires Mirrored(nodes) && k in nodes
    ensures Sources(EdgesOf(nodes), k) == nodes[k].inRefs
    ensures Targets(EdgesOf(nodes), k) == nodes[k].outRefs
  {
  }

  /** `DepGraph`: the node table, updated in place. */
  class DepGraph {
    var nodes: map<string, Node>

    ghost predicate Valid()
      reads this
    {
      Mirrored(nodes)
    }

    constructor ()
      ensures Valid() && nodes == map[]
    {
      nodes := map[];
    }

    /** `get_keys`: the names of the nodes. */
    function GetKeys(): (keys: set<string>)
      reads this
      ensures forall k :: k in keys <==> k in nodes
    {
      nodes.Keys
    }

    /** `get_node`: the stored node, or a fresh one inserted under `id`; no other node changes. */
    method GetNode(id: string) returns (node: Node)
      requires Valid()
      modifies this
      ensures Valid()
      ensures nodes == WithNode(old(nodes), id) && node == nodes[id]
    {
      WithNodeMirrored(nodes, id);
      if id !in nodes {
        nodes := nodes[id := EmptyNode];
      }
      node := nodes[id];
    }

    /** `add_dependency`: makes sure both nodes exist, then records the edge at both ends. */
    method AddDependency(src: string, tgt: string)
      requires Valid()
      modifies this
      ensures Valid()
      ensures nodes == WithEdge(old(nodes), src, tgt)
    {
      WithEdgeMirrored(nodes, src, tgt);
      var srcNode := GetNode(src);
      var tgtNode := GetNode(tgt);
      nodes := nodes[src := nodes[src].(outRefs := nodes[src].outRefs + {tgt})];
      nodes := nodes[tgt := nodes[tgt].(inRefs := nodes[tgt].inRefs + {src})];
    }

    /**
      `remove_dependency`: makes sure both nodes exist, then drops the edge at
      both ends; `ok` is false where Python's `set.remove` raises `KeyError`
      (the edge is not there), and then only the nodes made on the way are new.
     */
    method RemoveDependency(src: string, tgt: string) returns (ok: bool)
      requires Valid()
      modifies this
      ensures Valid()
      ensures ok <==> src in old(nodes) && tgt in old(nodes)[src].outRefs
      ensures ok ==> nodes == WithoutEdge(old(nodes), src, tgt)
      ensures !ok ==> nodes == WithNode(WithNode(old(nodes), src), tgt)
    {
      var srcNode := GetNode(src);
      var tgtNode := GetNode(tgt);
      if tgt !in nodes[src].outRefs {
        return false;
      }
      WithoutEdgeMirrored(nodes, src, tgt);
      nodes := nodes[src := nodes[src].(outRefs := nodes[src].outRefs - {tgt})];
      nodes := nodes[tgt := nodes[tgt].(inRefs := nodes[tgt].inRefs - {src})];
      ok := true;
    }

    /** `remove_node`: deletes the node and every edge touching it, at both ends. */
    method RemoveNode(id: string)
      requires Valid()
      modifies this
      ensures Valid()
      ensures nodes == WithoutNode(old(nodes), id)
    {
      WithoutNodeMirrored(nodes, id);
      nodes := WithoutNode(nodes, id);
    }
  }
}
