/** `reduce_recompilation`: takes out of its cluster every node whose value
    must be a compile-time constant and that no node of its own cluster
    feeds, unless the node must be compiled; such a node then runs on the
    host, and the cluster sees only its result.

    `BackwardsConstAnalysis` (restricted to intra-cluster edges), the
    device registrations of `XlaOpRegistry` and `FindKernelDef` are the
    queries of `CompileQueries`. */
module ReduceRecompilation {
  import opened Errors
  import opened Graphs

  /** `XlaOpRegistry::AutoclusteringPolicy`. */
  datatype AutoclusteringPolicy = IfExplicitlyRequested | IfEnabledGlobally | Always

  datatype CompileQueries = CompileQueries(
    /** `DeviceNameToDeviceType`. */
    deviceType: string -> string,
    /** `XlaOpRegistry::GetCompilationDevice`: the registration's policy, if any. */
    compilationDevice: string -> Option<AutoclusteringPolicy>,
    /** Whether `FindKernelDef` finds a TensorFlow kernel: device type, op. */
    hasKernel: (string, string) -> bool,
    /** `BackwardsConstAnalysis` over intra-cluster edges: the nodes whose
        value must be a compile-time constant, or its error. */
    constAnalysis: GraphValue -> StatusOr<set<NodeId>>)

  /** `IsIntraClusterEdge`. */
  predicate IsIntraClusterEdge(g: GraphValue, e: Edge)
    requires e.src in g.nodes && e.dst in g.nodes
  {
    var srcClusterName := g.nodes[e.src].cluster;
    var dstClusterName := g.nodes[e.dst].cluster;
    srcClusterName.Some? && srcClusterName == dstClusterName
  }

  /** An edge is intra-cluster exactly when both ends carry the same
      cluster name; an unclustered producer never makes one. */
  lemma IntraClusterEdgeMeansSameCluster(g: GraphValue, e: Edge)
    requires e.src in g.nodes && e.dst in g.nodes
    ensures IsIntraClusterEdge(g, e) <==>
      exists c :: g.nodes[e.src].cluster == Some(c) && g.nodes[e.dst].cluster == Some(c)
    ensures g.nodes[e.src].cluster.None? ==> !IsIntraClusterEdge(g, e)
  {
    if IsIntraClusterEdge(g, e) {
      var c := g.nodes[e.src].cluster.value;
      assert g.nodes[e.src].cluster == Some(c) && g.nodes[e.dst].cluster == Some(c);
    }
  }

  /** `IsMustCompileDevice`. */
  predicate IsMustCompileDevice(k: CompileQueries, deviceType: string)
  {
    match k.compilationDevice(deviceType)
    case Some(policy) => policy == Always
    case None => false
  }

  /** `MustCompileNode`: the node's device always compiles, or it has no
      TensorFlow kernel to run it outside a cluster. */
  predicate MustCompileNode(k: CompileQueries, info: NodeInfo)
  {
    var deviceType := k.deviceType(info.assignedDevice);
    if IsMustCompileDevice(k, deviceType) then true
    else !k.hasKernel(deviceType, info.op)
  }

  /** No in-edge of `n` comes from a node of the cluster `clusterName`. */
  predicate NodeOnClusterEdge(g: GraphValue, n: NodeId, clusterName: string)
    requires WellFormed(g)
  {
    forall e :: e in g.edges && e.dst == n ==> g.nodes[e.src].cluster != Some(clusterName)
  }

  /** The loop body for the node `n`.  A constant node outside every
      cluster is left alone: the source dereferences its absent cluster
      name, but whatever it reads, unclustering such a node changes
      nothing. */
  function DeclusterStep(g: GraphValue, k: CompileQueries, constNodes: set<NodeId>, n: NodeId)
    : GraphValue
    requires WellFormed(g) && n in g.nodes
  {
    if n !in constNodes then g
    else match g.nodes[n].cluster
      case None => g
      case Some(clusterName) =>
        if NodeOnClusterEdge(g, n, clusterName) && !MustCompileNode(k, g.nodes[n])
        then g.(nodes := g.nodes[n := g.nodes[n].(cluster := None)])
        else g
  }

  predicate InGraph(g: GraphValue, order: seq<NodeId>)
  {
    forall i :: 0 <= i < |order| ==> order[i] in g.nodes
  }

  /** The loop over the reverse post order from its `i`-th node on. */
  function DeclusterFrom(g: GraphValue, k: CompileQueries, constNodes: set<NodeId>,
                         rpo: seq<NodeId>, i: nat): (r: GraphValue)
    requires WellFormed(g) && InGraph(g, rpo) && i <= |rpo|
    ensures WellFormed(r) && r.edges == g.edges && r.nextId == g.nextId && r.nodes.Keys == g.nodes.Keys
    decreases |rpo| - i
  {
    if i == |rpo| then g
    else DeclusterFrom(DeclusterStep(g, k, constNodes, rpo[i]), k, constNodes, rpo, i + 1)
  }

  /** What the loop may do to a node: nothing, or take it out of its
      cluster when it is a compile-time constant that need not be compiled
      and that, in the resulting graph, no node of its old cluster feeds.
      Cluster labels only ever change to none. */
  predicate OnlyConstantsDeclustered(g: GraphValue, k: CompileQueries, constNodes: set<NodeId>,
                                     r: GraphValue)
    requires WellFormed(g) && WellFormed(r) && r.nodes.Keys == g.nodes.Keys && r.edges == g.edges
  {
    forall id :: id in g.nodes ==>
      r.nodes[id] == g.nodes[id] ||
      (id in constNodes && g.nodes[id].cluster.Some? &&
       r.nodes[id] == g.nodes[id].(cluster := None) &&
       !MustCompileNode(k, g.nodes[id]) &&
       NodeOnClusterEdge(r, id, g.nodes[id].cluster.value))
  }

  /** Labels only ever move from a cluster to none. */
  predicate LabelsOnlyCleared(g: GraphValue, r: GraphValue)
    requires r.nodes.Keys == g.nodes.Keys
  {
    forall id :: id in g.nodes ==> r.nodes[id].cluster == g.nodes[id].cluster || r.nodes[id].cluster == None
  }

  lemma {:induction false} DeclusterFromOnlyConstants(g: GraphValue, k: CompileQueries,
                                                      constNodes: set<NodeId>, rpo: seq<NodeId>, i: nat)
    requires WellFormed(g) && InGraph(g, rpo) && i <= |rpo|
    ensures var r := DeclusterFrom(g, k, constNodes, rpo, i);
      OnlyConstantsDeclustered(g, k, constNodes, r) && LabelsOnlyCleared(g, r)
    decreases |rpo| - i
  {
    if i < |rpo| {
      var h := DeclusterStep(g, k, constNodes, rpo[i]);
      var r := DeclusterFrom(h, k, constNodes, rpo, i + 1);
      DeclusterFromOnlyConstants(h, k, constNodes, rpo, i + 1);
      forall id | id in g.nodes
        ensures r.nodes[id] == g.nodes[id] ||
          (id in constNodes && g.nodes[id].cluster.Some? &&
           r.nodes[id] == g.nodes[id].(cluster := None) &&
           !MustCompileNode(k, g.nodes[id]) &&
           NodeOnClusterEdge(r, id, g.nodes[id].cluster.value))
      {
        if h.nodes[id] != g.nodes[id] {
          // the step cleared `id`, and later steps cannot give it back
          var c := g.nodes[id].cluster.value;
          assert h.nodes[id].cluster == None && r.nodes[id] == h.nodes[id];
          forall e | e in r.edges && e.dst == id
            ensures r.nodes[e.src].cluster != Some(c)
          {
            assert h.nodes[e.src].cluster != Some(c);
          }
        }
      }
    }
  }

  /** A free constant, one that no node of its own cluster feeds, stays
      free while later steps only clear labels, so its own step clears it. */
  lemma {:induction false} DeclusterFromClearsFreeConstants(g: GraphValue, k: CompileQueries,
      constNodes: set<NodeId>, rpo: seq<NodeId>, i: nat, id: NodeId)
    requires WellFormed(g) && InGraph(g, rpo) && i <= |rpo|
    requires id in rpo[i..] && id in constNodes && g.nodes[id].cluster.Some?
    requires NodeOnClusterEdge(g, id, g.nodes[id].cluster.value) && !MustCompileNode(k, g.nodes[id])
    ensures DeclusterFrom(g, k, constNodes, rpo, i).nodes[id].cluster == None
    decreases |rpo| - i
  {
    var h := DeclusterStep(g, k, constNodes, rpo[i]);
    DeclusterFromOnlyConstants(h, k, constNodes, rpo, i + 1);
    if rpo[i] != id {
      var c := g.nodes[id].cluster.value;
      assert h.nodes[id] == g.nodes[id];
      forall e | e in h.edges && e.dst == id
        ensures h.nodes[e.src].cluster != Some(c)
      {
        assert h.nodes[e.src] == g.nodes[e.src] || h.nodes[e.src].cluster == None;
      }
      assert id in rpo[i + 1..] by {
        var j :| i <= j < |rpo| && rpo[j] == id;
        assert j != i;
        assert rpo[i + 1..][j - i - 1] == id;
      }
      DeclusterFromClearsFreeConstants(h, k, constNodes, rpo, i + 1, id);
    }
  }

  /** `reduce_recompilation::PartiallyDeclusterGraph` as a value: the
      analysis' error, or the graph after the loop over
      `reversePostOrder`'s order. */
  function ReduceRecompilation(g: GraphValue, k: CompileQueries,
                               reversePostOrderOf: GraphValue -> seq<NodeId>)
    : (r: StatusOr<GraphValue>)
    requires WellFormed(g)
    requires forall h :: WellFormed(h) ==> IsNodeOrder(h, reversePostOrderOf(h))
    ensures r.Value? ==> WellFormed(r.value)
  {
    match k.constAnalysis(g)
    case Failure(c, m) => Failure(c, m)
    case Value(constNodes) =>
      var rpo := reversePostOrderOf(g);
      assert IsNodeOrder(g, rpo);
      Value(DeclusterFrom(g, k, constNodes, rpo, 0))
  }

  /** The step's contract: it fails only when the constant analysis
      fails; otherwise it keeps the edges and nodes and clears only the
      cluster labels of constant nodes that need not be compiled and that
      no node of their old cluster feeds; and every such node that no node
      of its cluster fed to begin with is cleared. */
  lemma ReduceRecompilationOnlyConstants(g: GraphValue, k: CompileQueries,
                                         reversePostOrderOf: GraphValue -> seq<NodeId>)
    requires WellFormed(g)
    requires forall h :: WellFormed(h) ==> IsNodeOrder(h, reversePostOrderOf(h))
    ensures var r := ReduceRecompilation(g, k, reversePostOrderOf);
      && (r.Failure? <==> k.constAnalysis(g).Failure?)
      && (r.Value? ==>
            r.value.edges == g.edges && r.value.nodes.Keys == g.nodes.Keys &&
            OnlyConstantsDeclustered(g, k, k.constAnalysis(g).value, r.value))
    ensures var r := ReduceRecompilation(g, k, reversePostOrderOf);
      r.Value? ==> forall id ::
        (id in g.nodes && id in k.constAnalysis(g).value && g.nodes[id].cluster.Some? &&
         NodeOnClusterEdge(g, id, g.nodes[id].cluster.value) && !MustCompileNode(k, g.nodes[id]))
        ==> r.value.nodes[id].cluster == None
  {
    if k.constAnalysis(g).Value? {
      var constNodes := k.constAnalysis(g).value;
      var rpo := reversePostOrderOf(g);
      assert IsNodeOrder(g, rpo);
      DeclusterFromOnlyConstants(g, k, constNodes, rpo, 0);
      forall id | id in g.nodes && id in constNodes && g.nodes[id].cluster.Some? &&
        NodeOnClusterEdge(g, id, g.nodes[id].cluster.value) && !MustCompileNode(k, g.nodes[id])
        ensures DeclusterFrom(g, k, constNodes, rpo, 0).nodes[id].cluster == None
      {
        assert rpo[0..] == rpo;
        DeclusterFromClearsFreeConstants(g, k, constNodes, rpo, 0, id);
      }
    }
  }

  /** `reduce_recompilation::PartiallyDeclusterGraph`. */
  method PartiallyDeclusterGraph(graph: Graph, k: CompileQueries,
                                 reversePostOrderOf: GraphValue -> seq<NodeId>)
    returns (status: Status)
    requires WellFormed(graph.Value())
    requires forall h :: WellFormed(h) ==> IsNodeOrder(h, reversePostOrderOf(h))
    modifies graph
    ensures var r := ReduceRecompilation(old(graph.Value()), k, reversePostOrderOf);
      status == r.StatusOf() && graph.Value() == if r.Value? then r.value else old(graph.Value())
  {
    ghost var g := graph.Value();
    var analysis := k.constAnalysis(graph.Value());
    if analysis.Failure? {
      return analysis.StatusOf();
    }
    var compileTimeConstNodes := analysis.value;
    var rpo := reversePostOrderOf(graph.Value());
    assert IsNodeOrder(g, rpo);
    for i := 0 to |rpo|
      invariant WellFormed(graph.Value()) && graph.nodes.Keys == g.nodes.Keys
      invariant DeclusterFrom(g, k, compileTimeConstNodes, rpo, 0) ==
                DeclusterFrom(graph.Value(), k, compileTimeConstNodes, rpo, i)
    {
      var n := rpo[i];
      if n !in compileTimeConstNodes {
        continue;
      }
      var cluster := graph.nodes[n].cluster;
      if cluster.None? {
        continue;
      }
      var clusterName := cluster.value;
      var nodeOnClusterEdge := AllInputsFromOtherClusters(graph.Value(), n, clusterName);
      if nodeOnClusterEdge {
        var mustCompileNode := MustCompileNode(k, graph.nodes[n]);
        if !mustCompileNode {
          graph.RemoveFromXlaCluster(n);
        }
      }
    }
    return Ok;
  }

  /** `absl::c_all_of` over the in-edges of `n`: no producer is in the
      cluster `clusterName`. */
  method AllInputsFromOtherClusters(g: GraphValue, n: NodeId, clusterName: string)
    returns (allOther: bool)
    requires WellFormed(g)
    ensures allOther <==> NodeOnClusterEdge(g, n, clusterName)
  {
    var inEdges := InEdges(g, n);
    allOther := true;
    while inEdges != {}
      invariant inEdges <= InEdges(g, n)
      invariant allOther <==> forall e :: e in InEdges(g, n) - inEdges ==>
        g.nodes[e.src].cluster != Some(clusterName)
      decreases |inEdges|
    {
      var e :| e in inEdges;
      inEdges := inEdges - {e};
      var incomingCluster := g.nodes[e.src].cluster;
      if incomingCluster == Some(clusterName) {
        allOther := false;
      }
    }
  }
}
