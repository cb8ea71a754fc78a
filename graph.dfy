/** The part of TensorFlow's `Graph` that the partial-declustering pass uses:
    nodes with the attributes the pass reads, edges between them, and the
    mutations the pass performs (`AddNode`, `AddEdge`, `RemoveEdge`,
    `RemoveNode`, `RemoveFromXlaCluster`).

    A node's `_XlaCluster` attribute is its optional `cluster`.  What the
    pass learns about a node from its op registration (`IsShapeConsumerOp`,
    `HasResourceInputOrOutput`) is recorded on the node, since a clone
    copies the node's definition and with it these facts. */
module Graphs {
  import opened Errors

  type NodeId = nat

  /** `Graph::kControlSlot`: the output and input index of a control edge. */
  const ControlSlot: int := -1

  datatype MemoryType = DeviceMemory | HostMemory

  datatype NodeInfo = NodeInfo(
    name: string,
    op: string,
    assignedDevice: string,
    cluster: Option<string>,
    isShapeConsumer: bool,
    hasResourceInputOrOutput: bool)

  datatype Edge = Edge(src: NodeId, srcOutput: int, dst: NodeId, dstInput: int)
  {
    predicate IsControlEdge() { srcOutput == ControlSlot }
  }

  /** A graph as a value: its nodes by id, its edges, and the id the next
      added node receives. */
  datatype GraphValue = GraphValue(nodes: map<NodeId, NodeInfo>, edges: set<Edge>, nextId: NodeId)

  /** Every edge joins two nodes of the graph, and no node has an id that
      `AddNode` could hand out again. */
  predicate WellFormed(g: GraphValue)
  {
    (forall e :: e in g.edges ==> e.src in g.nodes && e.dst in g.nodes) &&
    (forall id :: id in g.nodes ==> id < g.nextId)
  }

  function OutEdges(g: GraphValue, n: NodeId): (r: set<Edge>)
    ensures forall e :: e in r <==> e in g.edges && e.src == n
  {
    set e | e in g.edges && e.src == n
  }

  function InEdges(g: GraphValue, n: NodeId): (r: set<Edge>)
    ensures forall e :: e in r <==> e in g.edges && e.dst == n
  {
    set e | e in g.edges && e.dst == n
  }

  /** `GetXlaClusterForNode`. */
  function ClusterOf(g: GraphValue, n: NodeId): Option<string>
    requires n in g.nodes
  {
    g.nodes[n].cluster
  }

  /** A sequence holding every node of the graph exactly once, as the
      graph's orders (`GetPostOrder`, `GetReversePostOrder`, `op_nodes`)
      do. */
  predicate IsNodeOrder(g: GraphValue, order: seq<NodeId>)
  {
    (forall i :: 0 <= i < |order| ==> order[i] in g.nodes) &&
    (forall id :: id in g.nodes ==> id in order) &&
    (forall i, j :: 0 <= i < j < |order| ==> order[i] != order[j])
  }

  /** The graph with the nodes of `s` taken out of their clusters. */
  function WithoutClusters(g: GraphValue, s: set<NodeId>): (r: GraphValue)
    ensures r.edges == g.edges && r.nextId == g.nextId && r.nodes.Keys == g.nodes.Keys
    ensures forall id :: id in g.nodes ==>
      r.nodes[id] == if id in s then g.nodes[id].(cluster := None) else g.nodes[id]
  {
    GraphValue(map id | id in g.nodes :: if id in s then g.nodes[id].(cluster := None) else g.nodes[id],
               g.edges, g.nextId)
  }

  /** Taking one more node out of its cluster is `RemoveFromXlaCluster`
      applied to the graph so far. */
  lemma WithoutClustersAddOne(g: GraphValue, s: set<NodeId>, n: NodeId)
    requires n in g.nodes
    ensures var w := WithoutClusters(g, s);
      WithoutClusters(g, s + {n}) == w.(nodes := w.nodes[n := w.nodes[n].(cluster := None)])
  {
    var w := WithoutClusters(g, s);
    var w' := w.(nodes := w.nodes[n := w.nodes[n].(cluster := None)]);
    assert WithoutClusters(g, s + {n}).nodes == w'.nodes;
  }

  /** A graph whose nodes and edges the pass rewrites in place. */
  class Graph {
    var nodes: map<NodeId, NodeInfo>
    var edges: set<Edge>
    var nextId: NodeId

    function Value(): GraphValue
      reads this
    {
      GraphValue(nodes, edges, nextId)
    }

    constructor (g: GraphValue)
      ensures Value() == g
    {
      nodes, edges, nextId := g.nodes, g.edges, g.nextId;
    }

    /** `Graph::AddNode`: the new node gets the next unused id. */
    method AddNode(info: NodeInfo) returns (id: NodeId)
      modifies this
      ensures id == old(nextId)
      ensures Value() == GraphValue(old(nodes)[id := info], old(edges), id + 1)
    {
      id := nextId;
      nodes := nodes[id := info];
      nextId := nextId + 1;
    }

    /** `Graph::AddEdge`. */
    method AddEdge(src: NodeId, srcOutput: int, dst: NodeId, dstInput: int)
      modifies this
      ensures Value() == old(Value()).(edges := old(edges) + {Edge(src, srcOutput, dst, dstInput)})
    {
      edges := edges + {Edge(src, srcOutput, dst, dstInput)};
    }

    /** `Graph::RemoveEdge`. */
    method RemoveEdge(e: Edge)
      modifies this
      ensures Value() == old(Value()).(edges := old(edges) - {e})
    {
      edges := edges - {e};
    }

    /** `Graph::RemoveNode`: the node goes, and with it every edge that
        touches it. */
    method RemoveNode(n: NodeId)
      modifies this
      ensures Value() == GraphValue(old(nodes) - {n},
                                    (set e | e in old(edges) && e.src != n && e.dst != n),
                                    old(nextId))
    {
      nodes := nodes - {n};
      edges := set e | e in edges && e.src != n && e.dst != n;
    }

    /** `RemoveFromXlaCluster`: drops the node's `_XlaCluster` attribute. */
    method RemoveFromXlaCluster(n: NodeId)
      requires n in nodes
      modifies this
      ensures Value() == old(Value()).(nodes := old(nodes)[n := old(nodes)[n].(cluster := None)])
    {
      nodes := nodes[n := nodes[n].(cluster := None)];
    }
  }
}
