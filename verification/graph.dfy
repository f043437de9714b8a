/** The dependency graph: nodes carrying a payload and their index, and the
    per-node lists of children (successors) and parents (predecessors) that
    the graph constructor builds from an edge list. */
module Graphs {

  /** A node: its payload `val` and its position `ind` in the node array. */
  datatype Node<T> = Node(val: T, ind: int)

  /** An edge (source, target): `source` must finish before `target` may start. */
  datatype Edge = Edge(source: int, target: int)

  predicate Distinct<X(==)>(s: seq<X>) {
    forall i, j :: 0 <= i < j < |s| ==> s[i] != s[j]
  }

  /** Every node sits at the index it carries. */
  predicate WellIndexed<T>(nodes: seq<Node<T>>) {
    forall i :: 0 <= i < |nodes| ==> nodes[i].ind == i
  }

  /** Both ends of every edge are node indices below `size`. */
  predicate EdgesWithin(edges: seq<Edge>, size: int) {
    forall k :: 0 <= k < |edges| ==> 0 <= edges[k].source < size && 0 <= edges[k].target < size
  }

  predicate NoDuplicateEdges(edges: seq<Edge>) {
    Distinct(edges)
  }

  /** The edge list with every edge turned around. */
  function Reversed(edges: seq<Edge>): seq<Edge> {
    seq(|edges|, k requires 0 <= k < |edges| => Edge(edges[k].target, edges[k].source))
  }

  /** The indices carried by a sequence of nodes, in order. */
  function Inds<T>(ns: seq<Node<T>>): seq<int> {
    seq(|ns|, i requires 0 <= i < |ns| => ns[i].ind)
  }

  /** The children list of `v` as the constructor leaves it: the target node
      of every edge whose source is `v`, in edge-list order. */
  function Adjacent<T>(nodes: seq<Node<T>>, edges: seq<Edge>, v: int): seq<Node<T>>
    requires EdgesWithin(edges, |nodes|)
    decreases |edges|
  {
    if edges == [] then []
    else
      var e := edges[|edges| - 1];
      Adjacent(nodes, edges[..|edges| - 1], v) + if e.source == v then [nodes[e.target]] else []
  }

  /** The parents list of `u`: the source node of every edge whose target is
      `u`, in edge-list order, i.e. the children of `u` once every edge is
      turned around. */
  function Incoming<T>(nodes: seq<Node<T>>, edges: seq<Edge>, u: int): seq<Node<T>>
    requires EdgesWithin(edges, |nodes|)
  {
    Adjacent(nodes, Reversed(edges), u)
  }

  /** Sum of the lengths of the children lists of nodes 0 .. n-1. */
  function ChildrenTotal<T>(nodes: seq<Node<T>>, edges: seq<Edge>, n: nat): nat
    requires EdgesWithin(edges, |nodes|)
  {
    if n == 0 then 0 else ChildrenTotal(nodes, edges, n - 1) + |Adjacent(nodes, edges, n - 1)|
  }

  /** Sum of the lengths of the parents lists of nodes 0 .. n-1. */
  function ParentsTotal<T>(nodes: seq<Node<T>>, edges: seq<Edge>, n: nat): nat
    requires EdgesWithin(edges, |nodes|)
  {
    ChildrenTotal(nodes, Reversed(edges), n)
  }

  /** Appending one edge appends at most one node to one children list. */
  lemma AdjacentSnoc<T>(nodes: seq<Node<T>>, edges: seq<Edge>, e: Edge, v: int)
    requires EdgesWithin(edges + [e], |nodes|)
    ensures EdgesWithin(edges, |nodes|)
    ensures 0 <= e.source < |nodes| && 0 <= e.target < |nodes|
    ensures Adjacent(nodes, edges + [e], v)
         == Adjacent(nodes, edges, v) + if e.source == v then [nodes[e.target]] else []
  {
    assert (edges + [e])[..|edges|] == edges;
    assert (edges + [e])[|edges|] == e;
  }

  lemma ReversedSnoc(edges: seq<Edge>, e: Edge)
    ensures Reversed(edges + [e]) == Reversed(edges) + [Edge(e.target, e.source)]
  {
  }

  /** A node is in the children list of `v` exactly when some edge leaves
      `v` and ends at that node. */
  lemma {:induction false} AdjacentMembers<T>(nodes: seq<Node<T>>, edges: seq<Edge>, v: int, x: Node<T>)
    requires EdgesWithin(edges, |nodes|)
    ensures x in Adjacent(nodes, edges, v)
        <==> exists k :: 0 <= k < |edges| && edges[k].source == v && nodes[edges[k].target] == x
  {
    if edges != [] {
      var n := |edges| - 1;
      var init := edges[..n];
      assert init + [edges[n]] == edges;
      AdjacentSnoc(nodes, init, edges[n], v);
      AdjacentMembers(nodes, init, v, x);
      if x in Adjacent(nodes, edges, v) {
        if x in Adjacent(nodes, init, v) {
          var k :| 0 <= k < |init| && init[k].source == v && nodes[init[k].target] == x;
          assert edges[k] == init[k];
        } else {
          assert edges[n].source == v && nodes[edges[n].target] == x;
        }
      } else {
        forall k | 0 <= k < |edges| && edges[k].source == v
          ensures nodes[edges[k].target] != x
        {
          if k < n {
            assert init[k] == edges[k];
          }
        }
      }
    }
  }

  /** A node is in the parents list of `u` exactly when some edge ends at
      `u` and leaves from that node. */
  lemma IncomingMembers<T>(nodes: seq<Node<T>>, edges: seq<Edge>, u: int, x: Node<T>)
    requires EdgesWithin(edges, |nodes|)
    ensures x in Incoming(nodes, edges, u)
        <==> exists k :: 0 <= k < |edges| && edges[k].target == u && nodes[edges[k].source] == x
  {
    var r := Reversed(edges);
    AdjacentMembers(nodes, r, u, x);
    if x in Incoming(nodes, edges, u) {
      var k :| 0 <= k < |r| && r[k].source == u && nodes[r[k].target] == x;
      assert edges[k].target == u && nodes[edges[k].source] == x;
    } else {
      forall k | 0 <= k < |edges| && edges[k].target == u
        ensures nodes[edges[k].source] != x
      {
        assert r[k].source == u;
      }
    }
  }

  /** Every child or parent is a node of the array, sitting at its own index. */
  lemma ListedNodesWithin<T>(nodes: seq<Node<T>>, edges: seq<Edge>, v: int)
    requires WellIndexed(nodes) && EdgesWithin(edges, |nodes|)
    ensures forall x :: x in Adjacent(nodes, edges, v) ==> 0 <= x.ind < |nodes| && nodes[x.ind] == x
    ensures forall x :: x in Incoming(nodes, edges, v) ==> 0 <= x.ind < |nodes| && nodes[x.ind] == x
  {
    forall x | x in Adjacent(nodes, edges, v)
      ensures 0 <= x.ind < |nodes| && nodes[x.ind] == x
    {
      AdjacentMembers(nodes, edges, v, x);
    }
    forall x | x in Incoming(nodes, edges, v)
      ensures 0 <= x.ind < |nodes| && nodes[x.ind] == x
    {
      IncomingMembers(nodes, edges, v, x);
    }
  }

  /** For well-indexed nodes, `c` is a child of `p` exactly when `p` is a
      parent of `c`, and both hold exactly when the edge (p, c) was given. */
  lemma ChildIffParent<T>(nodes: seq<Node<T>>, edges: seq<Edge>, p: int, c: int)
    requires WellIndexed(nodes) && EdgesWithin(edges, |nodes|)
    requires 0 <= p < |nodes| && 0 <= c < |nodes|
    ensures nodes[c] in Adjacent(nodes, edges, p) <==> Edge(p, c) in edges
    ensures nodes[p] in Incoming(nodes, edges, c) <==> Edge(p, c) in edges
  {
    AdjacentMembers(nodes, edges, p, nodes[c]);
    IncomingMembers(nodes, edges, c, nodes[p]);
    if Edge(p, c) in edges {
      var k :| 0 <= k < |edges| && edges[k] == Edge(p, c);
      assert edges[k].source == p && nodes[edges[k].target] == nodes[c];
    }
    if nodes[c] in Adjacent(nodes, edges, p) {
      var k :| 0 <= k < |edges| && edges[k].source == p && nodes[edges[k].target] == nodes[c];
      assert nodes[edges[k].target].ind == edges[k].target;
      assert edges[k] == Edge(p, c);
    }
    if nodes[p] in Incoming(nodes, edges, c) {
      var k :| 0 <= k < |edges| && edges[k].target == c && nodes[edges[k].source] == nodes[p];
      assert nodes[edges[k].source].ind == edges[k].source;
      assert edges[k] == Edge(p, c);
    }
  }

  /** A node has an empty parents list exactly when no edge ends at it. */
  lemma IncomingEmpty<T>(nodes: seq<Node<T>>, edges: seq<Edge>, u: int)
    requires EdgesWithin(edges, |nodes|)
    ensures |Incoming(nodes, edges, u)| == 0 <==> forall k :: 0 <= k < |edges| ==> edges[k].target != u
  {
    if |Incoming(nodes, edges, u)| != 0 {
      IncomingMembers(nodes, edges, u, Incoming(nodes, edges, u)[0]);
    } else {
      forall k | 0 <= k < |edges|
        ensures edges[k].target != u
      {
        IncomingMembers(nodes, edges, u, nodes[edges[k].source]);
      }
    }
  }

  /** One more edge adds exactly one entry to the children lists of the
      nodes below `n` when its source is one of them. */
  lemma {:induction false} ChildrenTotalSnoc<T>(nodes: seq<Node<T>>, edges: seq<Edge>, e: Edge, n: nat)
    requires EdgesWithin(edges + [e], |nodes|)
    ensures EdgesWithin(edges, |nodes|)
    ensures ChildrenTotal(nodes, edges + [e], n)
         == ChildrenTotal(nodes, edges, n) + if 0 <= e.source < n then 1 else 0
  {
    assert EdgesWithin(edges, |nodes|) by {
      forall k | 0 <= k < |edges| ensures (edges + [e])[k] == edges[k] { }
    }
    if n > 0 {
      ChildrenTotalSnoc(nodes, edges, e, n - 1);
      AdjacentSnoc(nodes, edges, e, n - 1);
      assert |Adjacent(nodes, edges + [e], n - 1)|
          == |Adjacent(nodes, edges, n - 1)| + if e.source == n - 1 then 1 else 0;
    }
  }

  /** Every edge contributes exactly one entry to the children lists: their
      lengths add up to the number of edges. */
  lemma {:induction false} ChildrenTotalIsEdgeCount<T>(nodes: seq<Node<T>>, edges: seq<Edge>)
    requires EdgesWithin(edges, |nodes|)
    ensures ChildrenTotal(nodes, edges, |nodes|) == |edges|
  {
    if edges == [] {
      ChildrenTotalOfNoEdges(nodes, |nodes|);
    } else {
      var n := |edges| - 1;
      assert edges[..n] + [edges[n]] == edges;
      ChildrenTotalSnoc(nodes, edges[..n], edges[n], |nodes|);
      ChildrenTotalIsEdgeCount(nodes, edges[..n]);
    }
  }

  lemma {:induction false} ChildrenTotalOfNoEdges<T>(nodes: seq<Node<T>>, n: nat)
    ensures ChildrenTotal(nodes, [], n) == 0
  {
    if n > 0 {
      ChildrenTotalOfNoEdges(nodes, n - 1);
    }
  }

  /** The children lists and the parents lists each hold one entry per edge. */
  lemma ListTotals<T>(nodes: seq<Node<T>>, edges: seq<Edge>)
    requires EdgesWithin(edges, |nodes|)
    ensures ChildrenTotal(nodes, edges, |nodes|) == |edges|
    ensures ParentsTotal(nodes, edges, |nodes|) == |edges|
  {
    ChildrenTotalIsEdgeCount(nodes, edges);
    ChildrenTotalIsEdgeCount(nodes, Reversed(edges));
  }

  /** Without repeated edges, a children list never names a node twice. */
  lemma {:induction false} ChildrenDistinct<T>(nodes: seq<Node<T>>, edges: seq<Edge>, v: int)
    requires WellIndexed(nodes) && EdgesWithin(edges, |nodes|) && NoDuplicateEdges(edges)
    ensures Distinct(Inds(Adjacent(nodes, edges, v)))
  {
    if edges != [] {
      var n := |edges| - 1;
      var init := edges[..n];
      var e := edges[n];
      assert init + [e] == edges;
      AdjacentSnoc(nodes, init, e, v);
      ChildrenDistinct(nodes, init, v);
      if e.source == v {
        var before := Adjacent(nodes, init, v);
        if e.target in Inds(before) {
          var i :| 0 <= i < |before| && before[i].ind == e.target;
          AdjacentMembers(nodes, init, v, before[i]);
          assert false;
        }
        var after := Inds(before) + [e.target];
        assert Inds(before + [nodes[e.target]]) == after;
        forall i, j | 0 <= i < j < |after|
          ensures after[i] != after[j]
        {
          if j < |after| - 1 {
            assert after[i] == Inds(before)[i] && after[j] == Inds(before)[j];
          } else {
            assert after[i] in Inds(before);
          }
        }
        assert Adjacent(nodes, edges, v) == before + [nodes[e.target]];
      } else {
        assert Adjacent(nodes, edges, v) == Adjacent(nodes, init, v);
      }
    }
  }

  /** Taking in edge `n` extends the children list of its source and the
      parents list of its target by one node each, and no other list. */
  lemma ListsSnoc<T>(nodes: seq<Node<T>>, edges: seq<Edge>, n: nat, w: int)
    requires EdgesWithin(edges, |nodes|) && n < |edges|
    ensures EdgesWithin(edges[..n + 1], |nodes|) && EdgesWithin(edges[..n], |nodes|)
    ensures Adjacent(nodes, edges[..n + 1], w)
         == Adjacent(nodes, edges[..n], w) + if edges[n].source == w then [nodes[edges[n].target]] else []
    ensures Incoming(nodes, edges[..n + 1], w)
         == Incoming(nodes, edges[..n], w) + if edges[n].target == w then [nodes[edges[n].source]] else []
  {
    var e := edges[n];
    assert edges[..n + 1] == edges[..n] + [e];
    AdjacentSnoc(nodes, edges[..n], e, w);
    ReversedSnoc(edges[..n], e);
    AdjacentSnoc(nodes, Reversed(edges[..n]), Edge(e.target, e.source), w);
  }

  /** The graph after construction: node array, children and parents lists. */
  class Graph<T> {
    const size: nat
    const allNodes: seq<Node<T>>
    const adjacencyList: array<seq<Node<T>>>
    const parentsList: array<seq<Node<T>>>
    /** The edge list the graph was built from; the source keeps no copy. */
    ghost const edges: seq<Edge>

    ghost predicate Valid()
      reads adjacencyList, parentsList
    {
      && |allNodes| == size && WellIndexed(allNodes) && EdgesWithin(edges, size)
      && adjacencyList.Length == size && parentsList.Length == size
      && (forall v :: 0 <= v < size ==> adjacencyList[v] == Adjacent(allNodes, edges, v))
      && (forall u :: 0 <= u < size ==> parentsList[u] == Incoming(allNodes, edges, u))
    }

    /** Builds both lists: each starts empty, then every edge (v, u), in
        order, appends node u to the children of v and node v to the
        parents of u. */
    constructor (size: nat, nodes: seq<Node<T>>, edges: seq<Edge>)
      requires |nodes| == size && WellIndexed(nodes)
      requires EdgesWithin(edges, size)
      ensures Valid()
      ensures this.size == size && allNodes == nodes && this.edges == edges
      ensures fresh(adjacencyList) && fresh(parentsList)
    {
      var parents := new seq<Node<T>>[size];
      var adjacency := new seq<Node<T>>[size];
      for i := 0 to size
        invariant forall j :: 0 <= j < i ==> parents[j] == [] && adjacency[j] == []
      {
        parents[i] := [];
        adjacency[i] := [];
      }
      for n := 0 to |edges|
        invariant forall v :: 0 <= v < size ==> adjacency[v] == Adjacent(nodes, edges[..n], v)
        invariant forall u :: 0 <= u < size ==> parents[u] == Incoming(nodes, edges[..n], u)
      {
        var v := edges[n].source;
        var u := edges[n].target;
        adjacency[v] := adjacency[v] + [nodes[u]];
        parents[u] := parents[u] + [nodes[v]];
        forall w | 0 <= w < size
          ensures adjacency[w] == Adjacent(nodes, edges[..n + 1], w)
          ensures parents[w] == Incoming(nodes, edges[..n + 1], w)
        {
          ListsSnoc(nodes, edges, n, w);
        }
      }
      assert edges[..|edges|] == edges;
      this.size := size;
      allNodes := nodes;
      adjacencyList := adjacency;
      parentsList := parents;
      this.edges := edges;
    }

    /** The node stored at index `ind`; it carries that index. */
    function GetNode(ind: int): (node: Node<T>)
      reads adjacencyList, parentsList
      requires Valid() && 0 <= ind < size
      ensures node.ind == ind
    {
      allNodes[ind]
    }

    /** The parents list of `node`: the sources of the edges into it. */
    function GetParents(node: Node<T>): (parents: seq<Node<T>>)
      reads adjacencyList, parentsList
      requires Valid() && 0 <= node.ind < size
      ensures parents == Incoming(allNodes, edges, node.ind)
      ensures forall x :: x in parents ==> 0 <= x.ind < size
    {
      ListedNodesWithin(allNodes, edges, node.ind);
      parentsList[node.ind]
    }

    /** Number of parents of node `ind`; zero exactly when no edge ends there. */
    function GetParentsCount(ind: int): (count: nat)
      reads adjacencyList, parentsList
      requires Valid() && 0 <= ind < size
      ensures count == |Incoming(allNodes, edges, ind)|
      ensures count == 0 <==> forall k :: 0 <= k < |edges| ==> edges[k].target != ind
    {
      IncomingEmpty(allNodes, edges, ind);
      |parentsList[ind]|
    }

    /** The `Node` overload of the parent count agrees with the index one. */
    function GetParentsCountOf(node: Node<T>): (count: nat)
      reads adjacencyList, parentsList
      requires Valid() && 0 <= node.ind < size
      ensures count == |GetParents(node)| == GetParentsCount(node.ind)
    {
      |parentsList[node.ind]|
    }

    /** The children list of `node`: the targets of the edges out of it. */
    function GetChildren(node: Node<T>): (children: seq<Node<T>>)
      reads adjacencyList, parentsList
      requires Valid() && 0 <= node.ind < size
      ensures children == Adjacent(allNodes, edges, node.ind)
      ensures forall x :: x in children ==> 0 <= x.ind < size
    {
      ListedNodesWithin(allNodes, edges, node.ind);
      adjacencyList[node.ind]
    }
  }
}
