/** `decluster_root_shape_consumers`: a node that only reads the shape of
    its inputs (`Shape`, `Rank`, `Size`) and that no node of its own
    cluster feeds is taken out of the cluster, since clustering it gains
    nothing. */
module DeclusterRootShapeConsumers {
  import opened Errors
  import opened Graphs

  /** Some in-edge of `n` comes from a node of the cluster `clusterName`. */
  predicate InputFromSameCluster(g: GraphValue, n: NodeId, clusterName: string)
    requires WellFormed(g)
  {
    exists e :: e in g.edges && e.dst == n && g.nodes[e.src].cluster == Some(clusterName)
  }

  /** The loop body for the node `n`. */
  function DeclusterStep(g: GraphValue, n: NodeId): GraphValue
    requires WellFormed(g) && n in g.nodes
  {
    if !g.nodes[n].isShapeConsumer then g
    else match g.nodes[n].cluster
      case None => g
      case Some(c) =>
        if InputFromSameCluster(g, n, c) then g
        else g.(nodes := g.nodes[n := g.nodes[n].(cluster := None)])
  }

  predicate InGraph(g: GraphValue, order: seq<NodeId>)
  {
    forall i :: 0 <= i < |order| ==> order[i] in g.nodes
  }

  /** The loop over the reverse post order from its `i`-th node on. */
  function DeclusterFrom(g: GraphValue, rpo: seq<NodeId>, i: nat): (r: GraphValue)
    requires WellFormed(g) && InGraph(g, rpo) && i <= |rpo|
    ensures WellFormed(r) && r.edges == g.edges && r.nextId == g.nextId && r.nodes.Keys == g.nodes.Keys
    decreases |rpo| - i
  {
    if i == |rpo| then g
    else DeclusterFrom(DeclusterStep(g, rpo[i]), rpo, i + 1)
  }

  /** What the loop may do to a node: nothing, or take a shape consumer out
      of its cluster when, in the resulting graph, no node of that cluster
      feeds it. */
  predicate OnlyRootShapeConsumersDeclustered(g: GraphValue, r: GraphValue)
    requires WellFormed(g) && WellFormed(r) && r.nodes.Keys == g.nodes.Keys && r.edges == g.edges
  {
    forall id :: id in g.nodes ==>
      r.nodes[id] == g.nodes[id] ||
      (g.nodes[id].isShapeConsumer && g.nodes[id].cluster.Some? &&
       r.nodes[id] == g.nodes[id].(cluster := None) &&
       !InputFromSameCluster(r, id, g.nodes[id].cluster.value))
  }

  lemma {:induction false} DeclusterFromOnlyRoots(g: GraphValue, rpo: seq<NodeId>, i: nat)
    requires WellFormed(g) && InGraph(g, rpo) && i <= |rpo|
    ensures var r := DeclusterFrom(g, rpo, i);
      OnlyRootShapeConsumersDeclustered(g, r) &&
      forall id :: id in g.nodes ==> r.nodes[id].cluster == g.nodes[id].cluster || r.nodes[id].cluster == None
    decreases |rpo| - i
  {
    if i < |rpo| {
      var h := DeclusterStep(g, rpo[i]);
      var r := DeclusterFrom(h, rpo, i + 1);
      DeclusterFromOnlyRoots(h, rpo, i + 1);
      forall id | id in g.nodes && h.nodes[id] != g.nodes[id]
        ensures !InputFromSameCluster(r, id, g.nodes[id].cluster.value)
      {
        var c := g.nodes[id].cluster.value;
        assert r.nodes[id] == h.nodes[id];
        forall e | e in r.edges && e.dst == id
          ensures r.nodes[e.src].cluster != Some(c)
        {
          assert h.nodes[e.src].cluster != Some(c);
        }
      }
    }
  }

  /** A clustered shape consumer that no node of its cluster feeds stays
      so while later steps only clear labels, so its own step clears it. */
  lemma {:induction false} DeclusterFromClearsRoots(g: GraphValue, rpo: seq<NodeId>, i: nat, id: NodeId)
    requires WellFormed(g) && InGraph(g, rpo) && i <= |rpo|
    requires id in rpo[i..] && g.nodes[id].isShapeConsumer && g.nodes[id].cluster.Some?
    requires !InputFromSameCluster(g, id, g.nodes[id].cluster.value)
    ensures DeclusterFrom(g, rpo, i).nodes[id].cluster == None
    decreases |rpo| - i
  {
    var h := DeclusterStep(g, rpo[i]);
    DeclusterFromOnlyRoots(h, rpo, i + 1);
    if rpo[i] != id {
      var c := g.nodes[id].cluster.value;
      assert h.nodes[id] == g.nodes[id];
      forall e | e in h.edges && e.dst == id
        ensures h.nodes[e.src].cluster != Some(c)
      {
        assert h.nodes[e.src] == g.nodes[e.src] || h.nodes[e.src].cluster == None;
      }
      assert id in rpo[i + 1..] by {
        var j :| i <= j < |rpo| && rpo[j] == id;
        assert j != i;
        assert rpo[i + 1..][j - i - 1] == id;
      }
      DeclusterFromClearsRoots(h, rpo, i + 1, id);
    }
  }

  /** `decluster_root_shape_consumers::PartiallyDeclusterGraph` as a value. */
  function DeclusterRootShapeConsumers(g: GraphValue, reversePostOrderOf: GraphValue -> seq<NodeId>)
    : (r: GraphValue)
    requires WellFormed(g)
    requires forall h :: WellFormed(h) ==> IsNodeOrder(h, reversePostOrderOf(h))
    ensures WellFormed(r)
  {
    var rpo := reversePostOrderOf(g);
    assert IsNodeOrder(g, rpo);
    DeclusterFrom(g, rpo, 0)
  }

  /** The step keeps the edges and nodes, clears only the labels of shape
      consumers that no node of their old cluster feeds, and clears every
      clustered shape consumer that no node of its cluster fed to begin
      with: a shape consumer left in a cluster has an input from it. */
  lemma DeclusterRootShapeConsumersExactly(g: GraphValue, reversePostOrderOf: GraphValue -> seq<NodeId>)
    requires WellFormed(g)
    requires forall h :: WellFormed(h) ==> IsNodeOrder(h, reversePostOrderOf(h))
    ensures var r := DeclusterRootShapeConsumers(g, reversePostOrderOf);
      && r.edges == g.edges && r.nodes.Keys == g.nodes.Keys
      && OnlyRootShapeConsumersDeclustered(g, r)
      && forall id :: id in g.nodes && g.nodes[id].isShapeConsumer && r.nodes[id].cluster.Some? ==>
           r.nodes[id] == g.nodes[id] && InputFromSameCluster(g, id, g.nodes[id].cluster.value)
  {
    var rpo := reversePostOrderOf(g);
    assert IsNodeOrder(g, rpo);
    var r := DeclusterFrom(g, rpo, 0);
    DeclusterFromOnlyRoots(g, rpo, 0);
    forall id | id in g.nodes && g.nodes[id].isShapeConsumer && r.nodes[id].cluster.Some?
      ensures r.nodes[id] == g.nodes[id] && InputFromSameCluster(g, id, g.nodes[id].cluster.value)
    {
      if !InputFromSameCluster(g, id, g.nodes[id].cluster.value) {
        assert rpo[0..] == rpo;
        DeclusterFromClearsRoots(g, rpo, 0, id);
      }
    }
  }

  /** `decluster_root_shape_consumers::PartiallyDeclusterGraph`. */
  method PartiallyDeclusterGraph(graph: Graph, reversePostOrderOf: GraphValue -> seq<NodeId>)
    returns (status: Status)
    requires WellFormed(graph.Value())
    requires forall h :: WellFormed(h) ==> IsNodeOrder(h, reversePostOrderOf(h))
    modifies graph
    ensures status == Ok
    ensures graph.Value() == DeclusterRootShapeConsumers(old(graph.Value()), reversePostOrderOf)
  {
    ghost var g := graph.Value();
    var reversePostOrder := reversePostOrderOf(graph.Value());
    assert IsNodeOrder(g, reversePostOrder);
    for i := 0 to |reversePostOrder|
      invariant WellFormed(graph.Value()) && graph.nodes.Keys == g.nodes.Keys
      invariant DeclusterFrom(g, reversePostOrder, 0) == DeclusterFrom(graph.Value(), reversePostOrder, i)
    {
      var n := reversePostOrder[i];
      if !graph.nodes[n].isShapeConsumer {
        continue;
      }
      var cluster := graph.nodes[n].cluster;
      if cluster.None? {
        continue;
      }
      var anyFromSameCluster := AnyInputFromSameCluster(graph.Value(), n, cluster.value);
      if anyFromSameCluster {
        continue;
      }
      graph.RemoveFromXlaCluster(n);
    }
    return Ok;
  }

  /** `absl::c_any_of` over the in-edges of `n`. */
  method AnyInputFromSameCluster(g: GraphValue, n: NodeId, clusterName: string)
    returns (any: bool)
    requires WellFormed(g)
    ensures any <==> InputFromSameCluster(g, n, clusterName)
  {
    var inEdges := InEdges(g, n);
    any := false;
    while inEdges != {}
      invariant inEdges <= InEdges(g, n)
      invariant any <==>
        exists e :: e in InEdges(g, n) - inEdges && g.nodes[e.src].cluster == Some(clusterName)
      decreases |inEdges|
    {
      var e :| e in inEdges;
      inEdges := inEdges - {e};
      if g.nodes[e.src].cluster == Some(clusterName) {
        any := true;
      }
    }
  }
}
