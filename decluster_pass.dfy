/** `PartiallyDeclusterPass::Run`: the four declustering steps in their
    fixed order.  The dynamic-op step runs only when
    `TF_XLA_DECLUSTER_POSSIBLE_DYNAMIC_OPS` asks for it; the device-to-host
    step always runs; the recompilation step needs the function library
    and the session's `Env`, and fails the pass without them; the
    root-shape-consumer step runs last. */
module PartiallyDeclusterPass {
  import opened Errors
  import opened Graphs
  import DeviceToHost = ReduceDeviceToHostCopies
  import Recompilation = ReduceRecompilation
  import RootShape = DeclusterRootShapeConsumers
  import DynamicOps = DeclusterPossibleDynamicOps

  /** The environment variables the pass reads:
      `TF_XLA_DECLUSTER_POSSIBLE_DYNAMIC_OPS` and `TF_XLA_DYNAMIC_OPS`. */
  datatype Environment = Environment(declusterPossibleDynamicOps: bool, dynamicOps: string)

  /** What `GraphOptimizationPassOptions` provides beyond the graph:
      whether `flib_def` is set, and whether `session_options` and its
      `env` are. */
  datatype PassOptions = PassOptions(hasFlibDef: bool, hasSessionEnv: bool)

  /** The graph library's analyses the steps consult. */
  datatype Analyses = Analyses(
    postOrderOf: GraphValue -> seq<NodeId>,
    reversePostOrderOf: GraphValue -> seq<NodeId>,
    opNodesOf: GraphValue -> seq<NodeId>,
    memory: DeviceToHost.MemoryQueries,
    compile: Recompilation.CompileQueries)

  /** Each order lists every node of a graph exactly once. */
  ghost predicate OrdersCoverNodes(a: Analyses)
  {
    (forall h :: WellFormed(h) ==> IsNodeOrder(h, a.postOrderOf(h))) &&
    (forall h :: WellFormed(h) ==> IsNodeOrder(h, a.reversePostOrderOf(h))) &&
    (forall h :: WellFormed(h) ==> IsNodeOrder(h, a.opNodesOf(h)))
  }

  /** What the pass returns, and the graph it leaves when that is
      determined (a device-to-host step that fails midway leaves a graph
      the model does not describe). */
  datatype Outcome = Outcome(status: Status, graph: Option<GraphValue>)

  const MissingFlibDef := "GraphOptimizationPassOptions::flib_def must be set for PartiallyDeclusterPass."
  const MissingEnv := "GraphOptimizationPassOptions::session_options::env must be set for PartiallyDeclusterPass."

  /** The pass after its optional dynamic-op step, from the graph `g1`
      that step left. */
  function Finish(g1: GraphValue, options: PassOptions, a: Analyses): (r: Outcome)
    requires WellFormed(g1) && OrdersCoverNodes(a)
    ensures r.graph.Some? ==> WellFormed(r.graph.value)
  {
    match DeviceToHost.ReduceDeviceToHostCopies(g1, a.memory, a.postOrderOf)
    case Failure(c, m) => Outcome(Error(c, m), None)
    case Value(g2) =>
      if !options.hasFlibDef then Outcome(Error(InvalidArgument, MissingFlibDef), Some(g2))
      else if !options.hasSessionEnv then Outcome(Error(InvalidArgument, MissingEnv), Some(g2))
      else match Recompilation.ReduceRecompilation(g2, a.compile, a.reversePostOrderOf)
        case Failure(c, m) => Outcome(Error(c, m), Some(g2))
        case Value(g3) => Outcome(Ok, Some(RootShape.DeclusterRootShapeConsumers(g3, a.reversePostOrderOf)))
  }

  /** A missing function library or `Env` is reported only after the
      device-to-host step has run and succeeded, and the graph keeps that
      step's rewrite; the later steps do not run. */
  lemma MissingOptionsReportedAfterDeviceToHost(g1: GraphValue, options: PassOptions, a: Analyses)
    requires WellFormed(g1) && OrdersCoverNodes(a)
    requires !options.hasFlibDef || !options.hasSessionEnv
    ensures var r := Finish(g1, options, a);
      var d := DeviceToHost.ReduceDeviceToHostCopies(g1, a.memory, a.postOrderOf);
      && !r.status.IsOk()
      && (d.Value? <==> r.status.code == InvalidArgument)
      && (d.Value? ==> r.graph == Some(d.value))
      && (d.Failure? ==> r.status == d.StatusOf())
  {
  }

  /** Every node of `r` is either unclustered or a node of `g` with the
      cluster it had there: the rewrite never puts a node into a cluster. */
  predicate NeverClusters(g: GraphValue, r: GraphValue)
  {
    forall id :: id in r.nodes ==>
      r.nodes[id].cluster == None || (id in g.nodes && r.nodes[id].cluster == g.nodes[id].cluster)
  }

  lemma NeverClustersTransitive(g: GraphValue, h: GraphValue, r: GraphValue)
    requires NeverClusters(g, h) && NeverClusters(h, r)
    ensures NeverClusters(g, r)
  {
  }

  /** The pass only takes nodes out of clusters: when it succeeds, no node
      of the final graph is in a cluster it was not in before. */
  lemma {:induction false} FinishNeverClusters(g1: GraphValue, options: PassOptions, a: Analyses)
    requires WellFormed(g1) && OrdersCoverNodes(a)
    ensures var r := Finish(g1, options, a);
      r.graph.Some? ==> NeverClusters(g1, r.graph.value)
  {
    var d := DeviceToHost.ReduceDeviceToHostCopies(g1, a.memory, a.postOrderOf);
    if d.Value? {
      var g2 := d.value;
      DeviceToHost.ReduceDeviceToHostCopiesKeepsClusters(g1, a.memory, a.postOrderOf);
      assert NeverClusters(g1, g2);
      if options.hasFlibDef && options.hasSessionEnv {
        var c := Recompilation.ReduceRecompilation(g2, a.compile, a.reversePostOrderOf);
        Recompilation.ReduceRecompilationOnlyConstants(g2, a.compile, a.reversePostOrderOf);
        if c.Value? {
          var g3 := c.value;
          assert NeverClusters(g2, g3);
          var g4 := RootShape.DeclusterRootShapeConsumers(g3, a.reversePostOrderOf);
          RootShape.DeclusterRootShapeConsumersExactly(g3, a.reversePostOrderOf);
          assert NeverClusters(g3, g4);
          NeverClustersTransitive(g1, g2, g3);
          NeverClustersTransitive(g1, g3, g4);
        }
      }
    }
  }

  /** `PartiallyDeclusterPass::Run`.  `afterDynamicOps` is the graph the
      dynamic-op step leaves (the input itself when that step is off), and
      `dynamicCandidates` are the nodes that step reported and took out of
      their clusters. */
  method Run(graph: Graph, env: Environment, options: PassOptions, a: Analyses)
    returns (status: Status, ghost afterDynamicOps: GraphValue, ghost dynamicCandidates: seq<NodeId>)
    requires WellFormed(graph.Value()) && OrdersCoverNodes(a)
    modifies graph
    ensures WellFormed(afterDynamicOps)
    ensures afterDynamicOps == WithoutClusters(old(graph.Value()), set n | n in dynamicCandidates)
    ensures !env.declusterPossibleDynamicOps ==> dynamicCandidates == []
    ensures env.declusterPossibleDynamicOps ==>
      DynamicOps.Reported(old(graph.Value()), a.opNodesOf(old(graph.Value())), env.dynamicOps, dynamicCandidates)
    ensures var r := Finish(afterDynamicOps, options, a);
      status == r.status && (r.graph.Some? ==> graph.Value() == r.graph.value)
  {
    dynamicCandidates := [];
    if env.declusterPossibleDynamicOps {
      status, dynamicCandidates := DynamicOps.PartiallyDeclusterGraph(graph, a.opNodesOf, a.reversePostOrderOf,
                                                                      env.dynamicOps);
    } else {
      assert WithoutClusters(graph.Value(), {}) == graph.Value();
    }
    afterDynamicOps := graph.Value();

    status := DeviceToHost.PartiallyDeclusterGraph(graph, a.memory, a.postOrderOf);
    if !status.IsOk() {
      return;
    }
    if !options.hasFlibDef {
      return Error(InvalidArgument, MissingFlibDef), afterDynamicOps, dynamicCandidates;
    }
    if !options.hasSessionEnv {
      return Error(InvalidArgument, MissingEnv), afterDynamicOps, dynamicCandidates;
    }
    status := Recompilation.PartiallyDeclusterGraph(graph, a.compile, a.reversePostOrderOf);
    if !status.IsOk() {
      return;
    }
    status := RootShape.PartiallyDeclusterGraph(graph, a.reversePostOrderOf);
  }
}
