/** `reduce_device_to_host_copies`: clones a clustered node out of its
    cluster when one of its outputs feeds, in host memory, a consumer
    outside the cluster, so that the value need not be copied from the
    device back to the host.

    `DeviceNameToDeviceType` and `MemoryTypesForNode` are the queries of
    `MemoryQueries`; a node's definition is represented by its op. */
module ReduceDeviceToHostCopies {
  import opened Errors
  import opened Graphs

  datatype MemoryQueries = MemoryQueries(
    /** `DeviceNameToDeviceType`. */
    deviceType: string -> string,
    /** `MemoryTypesForNode(..)`'s output types: device type, op, output index. */
    outputMemoryType: (string, string, int) -> MemoryType,
    /** `MemoryTypesForNode(..)`'s input types: device type, op, input index. */
    inputMemoryType: (string, string, int) -> MemoryType)

  /** Whether the value carried by `e` leaves its producer outside device
      memory and enters its consumer in host memory.  Both lookups use the
      device type of the PRODUCER, the consumer's included, as the source
      does. */
  predicate IncursDeviceToHostCopy(g: GraphValue, q: MemoryQueries, e: Edge)
    requires e.src in g.nodes && e.dst in g.nodes
  {
    var deviceType := q.deviceType(g.nodes[e.src].assignedDevice);
    q.outputMemoryType(deviceType, g.nodes[e.src].op, e.srcOutput) != DeviceMemory &&
    q.inputMemoryType(deviceType, g.nodes[e.dst].op, e.dstInput) == HostMemory
  }

  /** The nodes the search considers at all: clustered, not a shape
      consumer, and without resource inputs or outputs (those may have side
      effects and must not run twice). */
  predicate MayDecluster(g: GraphValue, n: NodeId)
    requires n in g.nodes
  {
    g.nodes[n].cluster.Some? && !g.nodes[n].isShapeConsumer && !g.nodes[n].hasResourceInputOrOutput
  }

  /** The cluster the search attributes to a consumer: none once the
      consumer itself is selected, since it will then be cloned out. */
  function EffectiveCluster(g: GraphValue, selected: set<NodeId>, d: NodeId): Option<string>
    requires d in g.nodes
  {
    if d in selected then None else g.nodes[d].cluster
  }

  /** A data edge that would need a device-to-host copy, into a consumer
      in another effective cluster. */
  predicate ForcesDecluster(g: GraphValue, q: MemoryQueries, selected: set<NodeId>, e: Edge)
    requires WellFormed(g) && e in g.edges
  {
    !e.IsControlEdge() && IncursDeviceToHostCopy(g, q, e) &&
    g.nodes[e.src].cluster != EffectiveCluster(g, selected, e.dst)
  }

  predicate ShouldDecluster(g: GraphValue, q: MemoryQueries, selected: set<NodeId>, n: NodeId)
    requires WellFormed(g) && n in g.nodes
  {
    MayDecluster(g, n) &&
    exists e :: e in g.edges && e.src == n && ForcesDecluster(g, q, selected, e)
  }

  predicate InGraph(g: GraphValue, order: seq<NodeId>)
  {
    forall i :: 0 <= i < |order| ==> order[i] in g.nodes
  }

  predicate Distinct(order: seq<NodeId>)
  {
    forall i, j :: 0 <= i < j < |order| ==> order[i] != order[j]
  }

  /** The nodes selected after the first `i` nodes of the post order. */
  function Selected(g: GraphValue, q: MemoryQueries, postOrder: seq<NodeId>, i: nat): set<NodeId>
    requires WellFormed(g) && InGraph(g, postOrder) && i <= |postOrder|
  {
    if i == 0 then {}
    else
      var before := Selected(g, q, postOrder, i - 1);
      if ShouldDecluster(g, q, before, postOrder[i - 1]) then before + {postOrder[i - 1]} else before
  }

  /** Only clustered nodes that are neither shape consumers nor resource
      users are ever selected, and only from the part of the order seen. */
  lemma {:induction false} SelectedOnlyCandidates(g: GraphValue, q: MemoryQueries,
                                                   postOrder: seq<NodeId>, i: nat)
    requires WellFormed(g) && InGraph(g, postOrder) && i <= |postOrder|
    ensures forall n :: n in Selected(g, q, postOrder, i) ==>
      n in g.nodes && MayDecluster(g, n) && n in postOrder[..i]
  {
    if i > 0 {
      SelectedOnlyCandidates(g, q, postOrder, i - 1);
      assert postOrder[..i - 1] <= postOrder[..i];
      assert postOrder[..i] == postOrder[..i - 1] + [postOrder[i - 1]];
    }
  }

  /** With each node once in the order, a node is selected exactly when,
      at its turn, one of its data out-edges forces it out; later nodes do
      not change that verdict. */
  lemma {:induction false} SelectedExactly(g: GraphValue, q: MemoryQueries,
                                           postOrder: seq<NodeId>, i: nat, k: nat)
    requires WellFormed(g) && InGraph(g, postOrder) && Distinct(postOrder)
    requires k < i <= |postOrder|
    ensures postOrder[k] in Selected(g, q, postOrder, i) <==>
      ShouldDecluster(g, q, Selected(g, q, postOrder, k), postOrder[k])
  {
    if i - 1 > k {
      SelectedExactly(g, q, postOrder, i - 1, k);
    } else {
      SelectedOnlyCandidates(g, q, postOrder, k);
      assert postOrder[k] !in postOrder[..k];
    }
  }

  /** `FindNodesToDecluster`. */
  method FindNodesToDecluster(g: GraphValue, q: MemoryQueries, postOrder: seq<NodeId>)
    returns (result: set<NodeId>)
    requires WellFormed(g) && IsNodeOrder(g, postOrder)
    ensures result == Selected(g, q, postOrder, |postOrder|)
  {
    result := {};
    for i := 0 to |postOrder|
      invariant result == Selected(g, q, postOrder, i)
    {
      var n := postOrder[i];
      var fromCluster := g.nodes[n].cluster;
      if fromCluster.None? {
        continue;
      }
      if g.nodes[n].isShapeConsumer {
        continue;
      }
      if g.nodes[n].hasResourceInputOrOutput {
        continue;
      }
      var deviceType := q.deviceType(g.nodes[n].assignedDevice);
      var outEdges := OutEdges(g, n);
      while outEdges != {}
        invariant outEdges <= OutEdges(g, n)
        invariant result == Selected(g, q, postOrder, i)
        invariant forall e :: e in OutEdges(g, n) - outEdges ==> !ForcesDecluster(g, q, result, e)
        decreases |outEdges|
      {
        var e :| e in outEdges;
        outEdges := outEdges - {e};
        var dst := e.dst;
        if e.IsControlEdge() {
          continue;
        }
        var edgeIncursExtraDeviceToHostCopy;
        if q.outputMemoryType(deviceType, g.nodes[n].op, e.srcOutput) == DeviceMemory {
          edgeIncursExtraDeviceToHostCopy := false;
        } else {
          edgeIncursExtraDeviceToHostCopy :=
            q.inputMemoryType(deviceType, g.nodes[dst].op, e.dstInput) == HostMemory;
        }
        if !edgeIncursExtraDeviceToHostCopy {
          continue;
        }
        var dstCluster := if dst in result then None else g.nodes[dst].cluster;
        if fromCluster != dstCluster {
          // CHECK(result->insert(n).second): each node is inserted once.
          SelectedOnlyCandidates(g, q, postOrder, i);
          assert n !in result;
          result := result + {n};
          break;
        }
      }
    }
  }

  // ---------------------------------------------------------------------
  // PartiallyDeclusterNode
  // ---------------------------------------------------------------------

  /** The data out-edges of `n` into other clusters (or none). */
  function EdgesToClone(g: GraphValue, n: NodeId): (r: set<Edge>)
    requires WellFormed(g) && n in g.nodes
    ensures forall e :: e in r <==>
      e in g.edges && e.src == n && !e.IsControlEdge() && g.nodes[e.dst].cluster != g.nodes[n].cluster
  {
    set e | e in g.edges && e.src == n && !e.IsControlEdge() && g.nodes[e.dst].cluster != g.nodes[n].cluster
  }

  /** The clone's definition: `n`'s, renamed and out of every cluster, on
      the same assigned device. */
  function DeclusteredCopy(info: NodeInfo): NodeInfo
  {
    info.(name := info.name + "/declustered", cluster := None)
  }

  function CopiedInEdges(edges: set<Edge>, n: NodeId, clone: NodeId): (r: set<Edge>)
    ensures forall e :: e in r <==>
      e.dst == clone && Edge(e.src, e.srcOutput, n, e.dstInput) in edges
  {
    set e | e in edges && e.dst == n :: Edge(e.src, e.srcOutput, clone, e.dstInput)
  }

  function MovedEdges(moved: set<Edge>, clone: NodeId): (r: set<Edge>)
    ensures forall m :: m in moved ==> Edge(clone, m.srcOutput, m.dst, m.dstInput) in r
    ensures forall e :: e in r ==> e.src == clone
  {
    set m | m in moved :: Edge(clone, m.srcOutput, m.dst, m.dstInput)
  }

  /** The graph after `PartiallyDeclusterNode(graph, n)`, or the failed
      `CHECK` when `n` has no data out-edge to another cluster. */
  function DeclusterNode(g: GraphValue, n: NodeId): (r: StatusOr<GraphValue>)
    requires WellFormed(g) && n in g.nodes && g.nodes[n].cluster.Some?
    ensures r.Failure? <==> EdgesToClone(g, n) == {}
    ensures r.Failure? ==> r.code == CheckFailed
    ensures r.Value? ==>
      var clone := g.nextId;
      var h := r.value;
      && WellFormed(h)
      && h.nextId == clone + 1
      // the clone: renamed, unclustered, on n's device
      && clone in h.nodes && h.nodes[clone] == DeclusteredCopy(g.nodes[n])
      && h.nodes[clone].name == g.nodes[n].name + "/declustered" && h.nodes[clone].cluster == None
      // every other node is untouched; n stays iff it still has an out-edge
      && (forall id :: id in g.nodes && id != n ==> id in h.nodes && h.nodes[id] == g.nodes[id])
      && (n in h.nodes <==> exists e :: e in h.edges && e.src == n)
      && (n in h.nodes ==> h.nodes[n] == g.nodes[n])
      && h.nodes.Keys <= g.nodes.Keys + {clone}
      // the clone is fed like n, and takes over exactly the edges to clone
      && (forall e :: e in g.edges && e.dst == n ==> Edge(e.src, e.srcOutput, clone, e.dstInput) in h.edges)
      && (forall e :: e in h.edges && e.dst == clone ==> Edge(e.src, e.srcOutput, n, e.dstInput) in g.edges)
      && (forall e :: e in EdgesToClone(g, n) ==>
            e !in h.edges && Edge(clone, e.srcOutput, e.dst, e.dstInput) in h.edges)
      && (forall e :: e in h.edges && e.src == clone ==>
            exists m :: m in EdgesToClone(g, n) && e == Edge(clone, m.srcOutput, m.dst, m.dstInput))
      // no other edge appears or disappears, except n's when n goes
      && (forall e :: e in g.edges && e !in EdgesToClone(g, n) && (n in h.nodes || (e.src != n && e.dst != n))
            ==> e in h.edges)
      && (forall e :: e in h.edges && e.src != clone && e.dst != clone ==> e in g.edges)
  {
    var toClone := EdgesToClone(g, n);
    if toClone == {} then Failure(CheckFailed, "Check failed: !out_edges_to_clone.empty()")
    else
      var clone := g.nextId;
      var edges := (g.edges - toClone) + CopiedInEdges(g.edges, n, clone) + MovedEdges(toClone, clone);
      var nodes := g.nodes[clone := DeclusteredCopy(g.nodes[n])];
      if exists e :: e in edges && e.src == n then Value(GraphValue(nodes, edges, clone + 1))
      else Value(GraphValue(nodes - {n}, (set e | e in edges && e.src != n && e.dst != n), clone + 1))
  }

  /** The first loop of `PartiallyDeclusterNode`: the data out-edges of
      `n` whose consumer is not in `n`'s cluster `clusterName`. */
  method CollectEdgesToClone(g: GraphValue, n: NodeId, clusterName: string)
    returns (outEdgesToClone: set<Edge>)
    requires WellFormed(g) && n in g.nodes && g.nodes[n].cluster == Some(clusterName)
    ensures outEdgesToClone == EdgesToClone(g, n)
  {
    var outEdges := OutEdges(g, n);
    outEdgesToClone := {};
    while outEdges != {}
      invariant outEdges <= OutEdges(g, n)
      invariant outEdgesToClone == EdgesToClone(g, n) - outEdges
      decreases |outEdges|
    {
      var outEdge :| outEdge in outEdges;
      outEdges := outEdges - {outEdge};
      if outEdge.IsControlEdge() {
        continue;
      }
      var dstClusterName := g.nodes[outEdge.dst].cluster;
      if dstClusterName != Some(clusterName) {
        outEdgesToClone := outEdgesToClone + {outEdge};
      }
    }
  }

  lemma CopyOneEdge(copied: set<Edge>, e: Edge, n: NodeId, clone: NodeId)
    requires e.dst == n
    ensures CopiedInEdges(copied + {e}, n, clone) ==
            CopiedInEdges(copied, n, clone) + {Edge(e.src, e.srcOutput, clone, e.dstInput)}
  {
  }

  lemma CopiedInEdgesOfInEdges(edges: set<Edge>, n: NodeId, clone: NodeId)
    ensures CopiedInEdges((set e | e in edges && e.dst == n), n, clone) == CopiedInEdges(edges, n, clone)
  {
  }

  /** The second loop: the clone gets a copy of every in-edge of `n`. */
  method CopyInEdges(graph: Graph, n: NodeId, clonedNode: NodeId)
    modifies graph
    ensures graph.Value() ==
      old(graph.Value()).(edges := old(graph.edges) + CopiedInEdges(old(graph.edges), n, clonedNode))
  {
    ghost var g := graph.Value();
    var inEdges := InEdges(graph.Value(), n);
    ghost var copied: set<Edge> := {};
    while inEdges != {}
      invariant inEdges + copied == InEdges(g, n) && inEdges !! copied
      invariant graph.nodes == g.nodes && graph.nextId == g.nextId
      invariant graph.edges == g.edges + CopiedInEdges(copied, n, clonedNode)
      decreases |inEdges|
    {
      var inEdge :| inEdge in inEdges;
      inEdges := inEdges - {inEdge};
      CopyInEdge(graph, inEdge, clonedNode, g.edges, copied);
      copied := copied + {inEdge};
    }
    CopiedInEdgesOfInEdges(g.edges, n, clonedNode);
  }

  /** One iteration of the second loop: the copy of `inEdge` is added. */
  method CopyInEdge(graph: Graph, inEdge: Edge, clonedNode: NodeId, ghost base: set<Edge>, ghost copied: set<Edge>)
    requires graph.edges == base + CopiedInEdges(copied, inEdge.dst, clonedNode)
    modifies graph
    ensures graph.nodes == old(graph.nodes) && graph.nextId == old(graph.nextId)
    ensures graph.edges == base + CopiedInEdges(copied + {inEdge}, inEdge.dst, clonedNode)
  {
    graph.AddEdge(inEdge.src, inEdge.srcOutput, clonedNode, inEdge.dstInput);
    CopyOneEdge(copied, inEdge, inEdge.dst, clonedNode);
  }

  /** Re-attaching one more edge `m` to the clone, as the third loop does. */
  lemma MoveOneEdge(edges: set<Edge>, moved: set<Edge>, m: Edge, clone: NodeId)
    requires m.src != clone
    ensures ((edges - moved) + MovedEdges(moved, clone) + {Edge(clone, m.srcOutput, m.dst, m.dstInput)}) - {m}
         == (edges - (moved + {m})) + MovedEdges(moved + {m}, clone)
  {
    assert MovedEdges(moved + {m}, clone) == MovedEdges(moved, clone) + {Edge(clone, m.srcOutput, m.dst, m.dstInput)};
  }

  /** The third loop: each edge to clone is re-attached to the clone. */
  method MoveEdges(graph: Graph, outEdgesToClone: set<Edge>, clonedNode: NodeId)
    requires forall e :: e in outEdgesToClone ==> e.src != clonedNode
    modifies graph
    ensures graph.Value() == old(graph.Value()).(edges :=
      (old(graph.edges) - outEdgesToClone) + MovedEdges(outEdgesToClone, clonedNode))
  {
    ghost var g := graph.Value();
    var toMove := outEdgesToClone;
    ghost var moved: set<Edge> := {};
    while toMove != {}
      invariant toMove + moved == outEdgesToClone && toMove !! moved
      invariant graph.nodes == g.nodes && graph.nextId == g.nextId
      invariant graph.edges == (g.edges - moved) + MovedEdges(moved, clonedNode)
      decreases |toMove|
    {
      var outEdgeToClone :| outEdgeToClone in toMove;
      toMove := toMove - {outEdgeToClone};
      graph.AddEdge(clonedNode, outEdgeToClone.srcOutput, outEdgeToClone.dst, outEdgeToClone.dstInput);
      graph.RemoveEdge(outEdgeToClone);
      MoveOneEdge(g.edges, moved, outEdgeToClone, clonedNode);
      moved := moved + {outEdgeToClone};
    }
  }

  /** `PartiallyDeclusterNode`. */
  method PartiallyDeclusterNode(graph: Graph, n: NodeId) returns (status: Status)
    requires WellFormed(graph.Value()) && n in graph.nodes && graph.nodes[n].cluster.Some?
    modifies graph
    ensures var r := DeclusterNode(old(graph.Value()), n);
      status == r.StatusOf() && graph.Value() == if r.Value? then r.value else old(graph.Value())
  {
    ghost var g := graph.Value();
    var clusterName := graph.nodes[n].cluster.value;
    var outEdgesToClone := CollectEdgesToClone(graph.Value(), n, clusterName);
    if outEdgesToClone == {} {
      return Error(CheckFailed, "Check failed: !out_edges_to_clone.empty()");
    }

    var ndef := graph.nodes[n];
    var clonedNode := graph.AddNode(DeclusteredCopy(ndef));
    CopyInEdges(graph, n, clonedNode);
    MoveEdges(graph, outEdgesToClone, clonedNode);
    ghost var edges := (g.edges - outEdgesToClone) + CopiedInEdges(g.edges, n, clonedNode) +
                       MovedEdges(outEdgesToClone, clonedNode);
    assert graph.edges == edges;

    if OutEdges(graph.Value(), n) == {} {
      graph.RemoveNode(n);
    }
    return Ok;
  }

  // ---------------------------------------------------------------------
  // PartiallyDeclusterGraph
  // ---------------------------------------------------------------------

  /** Declusters, in the order given, the selected nodes from the `i`-th on. */
  function DeclusterInOrder(g: GraphValue, order: seq<NodeId>, selected: set<NodeId>, i: nat)
    : (r: StatusOr<GraphValue>)
    requires WellFormed(g) && Distinct(order) && i <= |order|
    requires forall k :: i <= k < |order| && order[k] in selected ==>
      order[k] in g.nodes && g.nodes[order[k]].cluster.Some?
    ensures r.Value? ==> WellFormed(r.value)
    ensures r.Failure? ==> r.code == CheckFailed
    decreases |order| - i
  {
    if i == |order| then Value(g)
    else if order[i] !in selected then DeclusterInOrder(g, order, selected, i + 1)
    else
      match DeclusterNode(g, order[i])
      case Failure(c, m) => Failure(c, m)
      case Value(h) => DeclusterInOrder(h, order, selected, i + 1)
  }

  /** The nodes of the original graph keep their definitions, cluster
      included; only nodes of `selected` may disappear; every node added
      is a declustered clone. */
  lemma {:induction false} DeclusterInOrderKeepsClusters(g: GraphValue, order: seq<NodeId>,
                                                         selected: set<NodeId>, i: nat)
    requires WellFormed(g) && Distinct(order) && i <= |order|
    requires forall k :: i <= k < |order| && order[k] in selected ==>
      order[k] in g.nodes && g.nodes[order[k]].cluster.Some?
    requires DeclusterInOrder(g, order, selected, i).Value?
    ensures var h := DeclusterInOrder(g, order, selected, i).value;
      && (forall id :: id in g.nodes && id in h.nodes ==> h.nodes[id] == g.nodes[id])
      && (forall id :: id in g.nodes && id !in selected ==> id in h.nodes)
      && (forall id :: id in h.nodes && id !in g.nodes ==> g.nextId <= id && h.nodes[id].cluster == None)
    decreases |order| - i
  {
    if i < |order| {
      if order[i] !in selected {
        DeclusterInOrderKeepsClusters(g, order, selected, i + 1);
      } else {
        var h := DeclusterNode(g, order[i]).value;
        DeclusterInOrderKeepsClusters(h, order, selected, i + 1);
      }
    }
  }

  /** The whole step: the nodes to decluster are found on `postOrderOf`'s
      order of the graph, declustered in that order, and then a second
      search on the new graph must find nothing (a `CHECK`). */
  function ReduceDeviceToHostCopies(g: GraphValue, q: MemoryQueries,
                                    postOrderOf: GraphValue -> seq<NodeId>)
    : (r: StatusOr<GraphValue>)
    requires WellFormed(g)
    requires forall h :: WellFormed(h) ==> IsNodeOrder(h, postOrderOf(h))
    ensures r.Value? ==> WellFormed(r.value)
    ensures r.Failure? ==> r.code == CheckFailed
  {
    var postOrder := postOrderOf(g);
    assert IsNodeOrder(g, postOrder);
    var selected := Selected(g, q, postOrder, |postOrder|);
    SelectedOnlyCandidates(g, q, postOrder, |postOrder|);
    match DeclusterInOrder(g, postOrder, selected, 0)
    case Failure(c, m) => Failure(c, m)
    case Value(h) =>
      var postOrderAfter := postOrderOf(h);
      assert IsNodeOrder(h, postOrderAfter);
      if Selected(h, q, postOrderAfter, |postOrderAfter|) != {}
      then Failure(CheckFailed, "Check failed: nodes_to_partially_decluster.empty()")
      else Value(h)
  }

  /** The step never moves a node of the original graph out of its
      cluster: it only adds unclustered clones and drops selected nodes. */
  lemma ReduceDeviceToHostCopiesKeepsClusters(g: GraphValue, q: MemoryQueries,
                                              postOrderOf: GraphValue -> seq<NodeId>)
    requires WellFormed(g)
    requires forall h :: WellFormed(h) ==> IsNodeOrder(h, postOrderOf(h))
    requires ReduceDeviceToHostCopies(g, q, postOrderOf).Value?
    ensures var h := ReduceDeviceToHostCopies(g, q, postOrderOf).value;
      && (forall id :: id in g.nodes && id in h.nodes ==> h.nodes[id] == g.nodes[id])
      && (forall id :: id in h.nodes && id !in g.nodes ==> h.nodes[id].cluster == None)
      && (forall id :: id in g.nodes && id !in h.nodes ==>
            id in Selected(g, q, postOrderOf(g), |postOrderOf(g)|))
  {
    var postOrder := postOrderOf(g);
    var selected := Selected(g, q, postOrder, |postOrder|);
    SelectedOnlyCandidates(g, q, postOrder, |postOrder|);
    DeclusterInOrderKeepsClusters(g, postOrder, selected, 0);
  }

  /** `reduce_device_to_host_copies::PartiallyDeclusterGraph`; `postOrderOf`
      is `GetPostOrder` (with the `NotBackedge` filter). */
  method PartiallyDeclusterGraph(graph: Graph, q: MemoryQueries,
                                 postOrderOf: GraphValue -> seq<NodeId>)
    returns (status: Status)
    requires WellFormed(graph.Value())
    requires forall h :: WellFormed(h) ==> IsNodeOrder(h, postOrderOf(h))
    modifies graph
    ensures var r := ReduceDeviceToHostCopies(old(graph.Value()), q, postOrderOf);
      status == r.StatusOf() && (r.Value? ==> graph.Value() == r.value)
  {
    ghost var g := graph.Value();
    var postOrder := postOrderOf(graph.Value());
    var nodesToPartiallyDecluster := FindNodesToDecluster(graph.Value(), q, postOrder);
    SelectedOnlyCandidates(g, q, postOrder, |postOrder|);

    for i := 0 to |postOrder|
      invariant WellFormed(graph.Value())
      invariant forall k :: i <= k < |postOrder| && postOrder[k] in nodesToPartiallyDecluster ==>
        postOrder[k] in graph.nodes && graph.nodes[postOrder[k]].cluster.Some?
      invariant DeclusterInOrder(g, postOrder, nodesToPartiallyDecluster, 0) ==
                DeclusterInOrder(graph.Value(), postOrder, nodesToPartiallyDecluster, i)
    {
      var n := postOrder[i];
      if n in nodesToPartiallyDecluster {
        status := PartiallyDeclusterNode(graph, n);
        if !status.IsOk() {
          return;
        }
      }
    }

    postOrder := postOrderOf(graph.Value());
    nodesToPartiallyDecluster := FindNodesToDecluster(graph.Value(), q, postOrder);
    if nodesToPartiallyDecluster != {} {
      return Error(CheckFailed, "Check failed: nodes_to_partially_decluster.empty()");
    }
    return Ok;
  }
}
