# Verified model of four TensorFlow / XLA components

This project models, in Dafny, four pieces of TensorFlow's XLA integration and proves what they promise:

- **`XlaCompilationCache`** (`compilation_cache.dfy`) is the JIT's table from a compilation `Signature` to an `Entry`.
  - Each entry holds a `CompileState` (uncompiled, compiling, compiled), a request count, a status, a result and an executable.
  - Beside the table sit the per-cluster `ClusterCompileStats` with their one-way megamorphic flag, and the counter of ongoing background compilations, which is capped at `kMaxNrofOngoingCompilations`.
  - A request is modelled on values (`Request`) and as a class whose methods update the table, the statistics and the counter.
- **`HloPassFix`** (`hlo_pass_fix.dfy`) runs an inner HLO pass until it reports no change, at most 25 times. `Run` and `RunOnModuleGroup` are the source's loops, and each is proved equal to a reference definition whose rules are proved as lemmas.
- **`ConvParameters` and `DnnScratchAllocator`** (`conv_ops_gpu.dfy`):
  - `ConvParameters` is the autotuning key of the GPU convolutions: twelve fields, field-wise equality, a hash folded over the fields in a fixed order, and a proto round trip.
  - `DnnScratchAllocator` is the scratch allocator given to cuDNN, with its running byte total and its list of held tensors.
- **`PartiallyDeclusterPass`** is the graph pass that takes nodes back out of XLA clusters. It has one file per step, over the graph of `graph.dfy`:
  - `decluster_device_to_host.dfy` clones nodes whose host-memory outputs leave the cluster;
  - `decluster_recompilation.dfy` declusters must-be-constant nodes on a cluster's edge;
  - `decluster_root_shape.dfy` declusters shape consumers that nothing in their cluster feeds;
  - `decluster_dynamic_ops.dfy` declusters nodes reachable from blacklisted dynamic ops;
  - `decluster_pass.dfy` holds `PartiallyDeclusterPass::Run`, which orders these steps.

`errors.dfy` holds the shared `Status` and `StatusOr` types.

In `graph.dfy` the graph is a class with a node map, a set of edges and the next free node id. Its methods `AddNode`, `AddEdge`, `RemoveEdge`, `RemoveNode` and `RemoveFromXlaCluster` stand for the TensorFlow `Graph` API that the pass calls. Each step of the pass is:

- an imperative method over that class, following the source loop by loop;
- a function on graph values that specifies that method;
- lemmas proving what the step guarantees.

Collaborators the model cannot see become parameters:

- the compiler, and the megamorphism heuristic's verdict;
- `Hash64Combine`, and `allocate_temp`;
- memory types, device types and kernel lookup;
- `BackwardsConstAnalysis`;
- the graph orders (`GetPostOrder`, `GetReversePostOrder`, `op_nodes`);
- the environment variables `TF_XLA_DYNAMIC_OPS` and `TF_XLA_DECLUSTER_POSSIBLE_DYNAMIC_OPS`.

Only the header of the compilation cache exists here: `xla_compilation_cache.cc` is not part of this model. The request path therefore follows the header's field defaults, constants and comments. In particular, strict mode compiles on every miss, even for a megamorphic cluster, as the comment on `Compile` says. A lazy or async request never compiles a megamorphic cluster.

## Model

| member | source | states |
|---|---|---|
| CompilationCache.Request | tensorflow/compiler/jit/xla_compilation_cache.h:61-79 | A request counts itself and keeps the entry well formed. Its state only advances. A compiled entry's recorded outcome is returned unchanged, and a request meeting a background compilation returns nulls. On an uncompiled entry: strict compiles; a request the heuristics decline returns nulls; an accepted lazy request compiles on the caller's thread; an accepted async request starts a background compilation iff fewer than `kMaxNrofOngoingCompilations` are ongoing, and otherwise returns nulls. A result is returned exactly when the entry is compiled successfully, and no executable without a result. |
| CompilationCache.StrictCompilesOnMiss | tensorflow/compiler/jit/xla_compilation_cache.h:70-71 | On a miss, strict mode always compiles and returns the compiler's result or error. |
| CompilationCache.DeclinedRequestReturnsNulls | tensorflow/compiler/jit/xla_compilation_cache.h:66-70 | A request that declines to compile is lazy or async, returns null result and executable with an OK status, and leaves the entry uncompiled. |
| CompilationCache.MegamorphicNeverCompiles | tensorflow/compiler/jit/xla_compilation_cache.h:204-208 | A lazy or async request for a megamorphic cluster neither compiles nor starts a background compilation. |
| CompilationCache.Complete | tensorflow/compiler/jit/xla_compilation_cache.h:155-169 | A finished background compilation leaves the entry compiled with the compiler's result, possibly without an executable, or with its error. The request count is kept. |
| CompilationCache.AtMostOneCompilation | tensorflow/compiler/jit/xla_compilation_cache.h:155-156 | For any sequence of requests and completions on a fresh entry, the compiler runs at most once: once if the entry left `kUncompiled`, never otherwise. |
| CompilationCache.CompiledIsFinal | tensorflow/compiler/jit/xla_compilation_cache.h:61-62 | Once compiled, an entry never compiles again. Every later request returns the same cached reply, and only the request count changes. |
| CompilationCache.LazyThreshold | tensorflow/compiler/jit/xla_compilation_cache.h:239-242 | For a fresh signature, k lazy requests compile exactly once when k reaches the threshold (and k is at least 1), and never before. |
| CompilationCache.LazyDefaultScenario | tensorflow/compiler/jit/xla_compilation_cache.h:239-242 | With `kDefaultCompilationThreshold` = 0 the first lazy request compiles, and the second reuses its result. |
| CompilationCache.RecordCompilation | tensorflow/compiler/jit/xla_compilation_cache.h:191-208 | A compilation adds one to the compile count and its time to the cumulative time. The maximum time becomes the larger of the old maximum and this compilation's whole seconds. `is_megamorphic` is never cleared. |
| CompilationCache.StatsAfterCompilation | tensorflow/compiler/jit/xla_compilation_cache.h:211-215 | Only the compiled cluster's record changes. The map only gains keys, and a megamorphic cluster stays megamorphic. |
| CompilationCache.XlaCompilationCache.constructor | tensorflow/compiler/jit/xla_compilation_cache.h:187-230 | A new cache has an empty table and no statistics, and no compilation is ongoing. |
| CompilationCache.XlaCompilationCache.LookupOrCreate | tensorflow/compiler/jit/xla_compilation_cache.h:152-159 | The signature's entry exists afterwards. A new one has the field defaults (`kUncompiled`, count 0). Nothing else changes. |
| CompilationCache.XlaCompilationCache.CountRequest | tensorflow/compiler/jit/xla_compilation_cache.h:158-159 | Only the entry's request count grows, by one. |
| CompilationCache.XlaCompilationCache.BeginAsyncCompilation | tensorflow/compiler/jit/xla_compilation_cache.h:217-230 | The entry becomes `kCompiling` and the ongoing count grows by one, still within `kMaxNrofOngoingCompilations`. |
| CompilationCache.XlaCompilationCache.CompileStrict | tensorflow/compiler/jit/xla_compilation_cache.h:172-178 | The entry records the compiler's outcome, and the cluster's statistics count one more compilation. |
| CompilationCache.XlaCompilationCache.Advance | tensorflow/compiler/jit/xla_compilation_cache.h:132-140 | After counting, the request behaves as `Request` says: the table entry, the reply, the statistics and the ongoing count all follow it. |
| CompilationCache.XlaCompilationCache.CompileImpl | tensorflow/compiler/jit/xla_compilation_cache.h:131-140 | One request keeps the cache invariants. Only the signature's slot changes, as `Request` says, so the table only grows. Megamorphic stays megamorphic. The ongoing count grows only when a background compilation starts. |
| CompilationCache.XlaCompilationCache.Compile | tensorflow/compiler/jit/xla_compilation_cache.h:61-86 | As `CompileImpl`, in the caller's mode. |
| CompilationCache.XlaCompilationCache.CompileSingleOp | tensorflow/compiler/jit/xla_compilation_cache.h:88-95 | As `CompileImpl`, in strict mode. |
| CompilationCache.XlaCompilationCache.FinishAsyncCompilation | tensorflow/compiler/jit/xla_compilation_cache.h:179-185 | The background job records its outcome in the entry, frees its slot in the ongoing count and counts the compilation. |
| HloPassFix.FixFromRules | tensorflow/compiler/xla/service/hlo_pass_fix.h:45-59 | From any iteration on, the loop calls the pass again only after a reported change. It stops at the first error, at the first "no change", or at the 25th call, and returns the error, `false` at the limit, or whether anything changed. |
| HloPassFix.FixedPointRules | tensorflow/compiler/xla/service/hlo_pass_fix.h:38-60 | The pass runs between 1 and 25 times. An error is returned at once. The 25th call yields false. Otherwise the result is true iff some call reported a change. |
| HloPassFix.Run | tensorflow/compiler/xla/service/hlo_pass_fix.h:38-60 | The loop returns the result and makes the number of calls that `FixedPoint` prescribes. |
| HloPassFix.RunOnModuleGroup | tensorflow/compiler/xla/service/hlo_pass_fix.h:62-82 | The same rules, with `Pass::RunOnModuleGroup` as the oracle. |
| ConvOpsGpu.NotEqual | tensorflow/core/kernels/conv_ops_gpu.h:141-143 | `!=` is the negation of `==`. |
| ConvOpsGpu.EqualIsFieldwise | tensorflow/core/kernels/conv_ops_gpu.h:137-139 | `==` holds iff all twelve fields of `get_data_as_tuple` agree. The hash code takes no part. |
| ConvOpsGpu.HashIsFoldOfFields | tensorflow/core/kernels/conv_ops_gpu.h:241-254 | The hash is one left fold of `Hash64Combine`, starting from the batch size, over the other fields in `UpdateHash`'s order. |
| ConvOpsGpu.EqualImpliesSameHash | tensorflow/core/kernels/conv_ops_gpu.h:137-144 | Two constructed values that compare equal have the same `hash()`, and are indeed identical. |
| ConvOpsGpu.CombineEach | tensorflow/core/kernels/conv_ops_gpu.h:244-250 | A `for (int64 val : array)` loop of `Hash64Combine` is the fold over the array. |
| ConvOpsGpu.UpdateHash | tensorflow/core/kernels/conv_ops_gpu.h:241-254 | The loop computes exactly the fold of the fields. |
| ConvOpsGpu.New | tensorflow/core/kernels/conv_ops_gpu.h:96-114 | The field constructor succeeds iff every spatial array has at most three entries, and otherwise fails a CHECK. On success it stores the arguments and their hash. |
| ConvOpsGpu.NewWithDefaultGroupCount | tensorflow/core/kernels/conv_ops_gpu.h:95-114 | The field constructor without `group_count` behaves as with a group count of 1. |
| ConvOpsGpu.FromProto | tensorflow/core/kernels/conv_ops_gpu.h:116-135 | The proto constructor copies every field, checks the spatial sizes and hashes. |
| ConvOpsGpu.ConstructedSpatialSizes | tensorflow/core/kernels/conv_ops_gpu.h:223-226 | Building from a proto succeeds iff every spatial array has at most three entries, and the result is then a properly constructed value. |
| ConvOpsGpu.AddAll | tensorflow/core/kernels/conv_ops_gpu.h:151-153 | Appending each value of an array to a repeated field yields the field followed by the array. |
| ConvOpsGpu.ToProto | tensorflow/core/kernels/conv_ops_gpu.h:146-171 | `ToProto` fills every proto field from the corresponding field. |
| ConvOpsGpu.ProtoRoundTrip | tensorflow/core/kernels/conv_ops_gpu.h:116-171 | Rebuilding from `ToProto()` yields a value equal to (indeed the same as) the original, hash included. |
| ConvOpsGpu.ParametersRoundTrip | tensorflow/core/kernels/conv_ops_gpu.h:116-171 | Serialising a value rebuilt from a proto gives back that proto. |
| ConvOpsGpu.DnnScratchAllocator.constructor | tensorflow/core/kernels/conv_ops_gpu.h:53-54 | A new allocator has the given limit, a zero total and no tensors. |
| ConvOpsGpu.DnnScratchAllocator.GetMemoryLimitInBytes | tensorflow/core/kernels/conv_ops_gpu.h:55 | Reports the constructor's limit. |
| ConvOpsGpu.DnnScratchAllocator.TotalByteSize | tensorflow/core/kernels/conv_ops_gpu.h:82 | The total is the size of the held tensors, and never negative. |
| ConvOpsGpu.DnnScratchAllocator.AllocateBytes | tensorflow/core/kernels/conv_ops_gpu.h:56-81 | A negative size gives INVALID_ARGUMENT. A size above the limit, or a failed temporary allocation, gives an empty `StatusOr`. All three change nothing. Success returns memory of the requested size, appends exactly one tensor and adds exactly the size to the total. |
| DeclusterPossibleDynamicOps.JoinSplit | tensorflow/compiler/jit/partially_decluster_pass.cc:43-45 | Splitting at commas loses nothing: the pieces contain no comma and join back to the string. |
| DeclusterPossibleDynamicOps.GetBlacklistedDynamicOps | tensorflow/compiler/jit/partially_decluster_pass.cc:38-48 | The set always holds "Where" and "Unique", and also every comma-separated piece of a non-empty configuration. Every other element is such a piece. |
| ReduceRecompilation.IntraClusterEdgeMeansSameCluster | tensorflow/compiler/jit/partially_decluster_pass.cc:257-263 | An edge is intra-cluster iff both ends carry the same cluster name. An unclustered source never makes one. |
| ReduceDeviceToHostCopies.SelectedOnlyCandidates | tensorflow/compiler/jit/partially_decluster_pass.cc:75-94 | Only clustered nodes are selected, never shape consumers or nodes with resource inputs or outputs, and only from the part of the post order already seen. |
| ReduceDeviceToHostCopies.SelectedExactly | tensorflow/compiler/jit/partially_decluster_pass.cc:102-139 | A node is selected iff, at its turn, some data out-edge incurs a device-to-host copy into a consumer whose effective cluster differs. An already selected consumer counts as unclustered. |
| ReduceDeviceToHostCopies.FindNodesToDecluster | tensorflow/compiler/jit/partially_decluster_pass.cc:66-143 | The loop computes exactly the selection. Each node is inserted once, so the `CHECK` on the insertion holds. |
| ReduceDeviceToHostCopies.CollectEdgesToClone | tensorflow/compiler/jit/partially_decluster_pass.cc:147-159 | It collects exactly the data out-edges into another cluster, or into no cluster. |
| ReduceDeviceToHostCopies.DeclusterNode | tensorflow/compiler/jit/partially_decluster_pass.cc:145-188 | The clone is named `n/declustered`, is unclustered and sits on `n`'s device. It gets a copy of every in-edge of `n` and takes over exactly the edges to clone. `n` stays iff it keeps an out-edge. Nothing else changes. With nothing to clone, the CHECK fails. |
| ReduceDeviceToHostCopies.CopyInEdges | tensorflow/compiler/jit/partially_decluster_pass.cc:172-175 | The graph gains exactly the copies of `n`'s in-edges into the clone. |
| ReduceDeviceToHostCopies.MoveEdges | tensorflow/compiler/jit/partially_decluster_pass.cc:177-181 | Each edge to clone is replaced by the same edge out of the clone. |
| ReduceDeviceToHostCopies.PartiallyDeclusterNode | tensorflow/compiler/jit/partially_decluster_pass.cc:145-188 | The in-place rewrite produces `DeclusterNode`'s graph and status. |
| ReduceDeviceToHostCopies.DeclusterInOrder | tensorflow/compiler/jit/partially_decluster_pass.cc:237-241 | Declustering the selected nodes in order keeps the graph well formed. It can fail only a CHECK. |
| ReduceDeviceToHostCopies.DeclusterInOrderKeepsClusters | tensorflow/compiler/jit/partially_decluster_pass.cc:237-241 | Original nodes keep their definitions, cluster included. Only selected nodes may disappear. Every new node is an unclustered clone. |
| ReduceDeviceToHostCopies.ReduceDeviceToHostCopies | tensorflow/compiler/jit/partially_decluster_pass.cc:216-253 | The step finds the nodes, declusters them in post order, and fails the final CHECK if a second search finds anything. The graph stays well formed. |
| ReduceDeviceToHostCopies.ReduceDeviceToHostCopiesKeepsClusters | tensorflow/compiler/jit/partially_decluster_pass.cc:216-253 | The step never changes an original node. It removes only selected nodes and adds only unclustered clones. |
| ReduceDeviceToHostCopies.PartiallyDeclusterGraph | tensorflow/compiler/jit/partially_decluster_pass.cc:216-253 | The in-place loop returns the step's status, and on success leaves its graph. |
| ReduceRecompilation.DeclusterFromOnlyConstants | tensorflow/compiler/jit/partially_decluster_pass.cc:335-376 | The RPO loop keeps nodes and edges. It clears only labels of compile-time constants that need not be compiled and that nothing in their old cluster feeds. |
| ReduceRecompilation.DeclusterFromClearsFreeConstants | tensorflow/compiler/jit/partially_decluster_pass.cc:335-376 | Every such constant that nothing in its cluster fed to begin with is cleared. |
| ReduceRecompilation.ReduceRecompilation | tensorflow/compiler/jit/partially_decluster_pass.cc:319-379 | The step's result is a well-formed graph, or the analysis' error. |
| ReduceRecompilation.ReduceRecompilationOnlyConstants | tensorflow/compiler/jit/partially_decluster_pass.cc:319-379 | The step fails iff the constant analysis fails. It keeps the edges and nodes and unclusters exactly the free constants that need not be compiled: only those, and all of those that were free to begin with. |
| ReduceRecompilation.AllInputsFromOtherClusters | tensorflow/compiler/jit/partially_decluster_pass.cc:341-346 | `c_all_of` holds iff no in-edge comes from the node's cluster. |
| ReduceRecompilation.PartiallyDeclusterGraph | tensorflow/compiler/jit/partially_decluster_pass.cc:319-379 | The in-place loop returns the step's status, and leaves its graph, or the unchanged graph on failure. |
| DeclusterRootShapeConsumers.DeclusterFromOnlyRoots | tensorflow/compiler/jit/partially_decluster_pass.cc:390-411 | The loop clears only the labels of clustered shape consumers that nothing in their old cluster feeds. Labels otherwise stay. |
| DeclusterRootShapeConsumers.DeclusterFromClearsRoots | tensorflow/compiler/jit/partially_decluster_pass.cc:390-411 | Every clustered shape consumer with no input from its cluster is cleared. |
| DeclusterRootShapeConsumers.DeclusterRootShapeConsumersExactly | tensorflow/compiler/jit/partially_decluster_pass.cc:384-413 | Edges and nodes stay, and only root shape consumers are declustered. A shape consumer left clustered is unchanged and has an input from its cluster. |
| DeclusterRootShapeConsumers.AnyInputFromSameCluster | tensorflow/compiler/jit/partially_decluster_pass.cc:400-404 | `c_any_of` holds iff some in-edge comes from the node's cluster. |
| DeclusterRootShapeConsumers.PartiallyDeclusterGraph | tensorflow/compiler/jit/partially_decluster_pass.cc:384-413 | The in-place loop returns OK and leaves the step's graph. |
| DeclusterPossibleDynamicOps.PushSameClusterOutNodes | tensorflow/compiler/jit/partially_decluster_pass.cc:460-472 | The queue gains only consumers of `n` in the consumer's cluster, and gains every one of them. |
| DeclusterPossibleDynamicOps.Explore | tensorflow/compiler/jit/partially_decluster_pass.cc:446-473 | The breadth-first search adds only nodes of the consumer's cluster, each under a distinct name not yet visited, and marks exactly their names visited. Every added node is reachable from the consumer through the cluster without passing a visited name. With unique node names, every such node is added. It terminates, and its `CHECK_EQ` holds. |
| DeclusterPossibleDynamicOps.PathCovered | tensorflow/compiler/jit/partially_decluster_pass.cc:446-473 | Assume unique names. Take a set of found nodes whose same-cluster consumers all carry visited names. It holds every node of a path through the cluster that starts at a visited name and passes no name visited before the search. So a search that stops only at visited names misses nothing. |
| DeclusterPossibleDynamicOps.SearchFromConsumer | tensorflow/compiler/jit/partially_decluster_pass.cc:424-473 | One out-edge's search extends what was found: new nodes, each reachable through its cluster from a clustered consumer of the source without passing a name visited before. It visits the consumer if that is clustered. |
| DeclusterPossibleDynamicOps.PopulateReachableDynamicNodes | tensorflow/compiler/jit/partially_decluster_pass.cc:417-476 | Visited names only accumulate, and the candidates only grow at the end. Each added node is new, and reachable from a clustered consumer of the source through that consumer's cluster without passing a name visited before. With unique node names, every such node is added. Every clustered consumer is visited. |
| DeclusterPossibleDynamicOps.IsNodeBlacklisted | tensorflow/compiler/jit/partially_decluster_pass.cc:511-534 | The flag is set iff some out-edge feeds a cluster other than the node's own. |
| DeclusterPossibleDynamicOps.PopulatePossibleDynamicNodes | tensorflow/compiler/jit/partially_decluster_pass.cc:478-550 | Every reported node is reachable, through its cluster, from a clustered consumer of a blacklisted op on a cluster's edge. No node is reported twice. With unique node names, each seed covers its reach: every node reachable from a clustered consumer of the seed without passing an op node met before it is reported. The only exception is a seed an earlier search already reported, which the loop skips. |
| DeclusterPossibleDynamicOps.PartiallyDeclusterGraph | tensorflow/compiler/jit/partially_decluster_pass.cc:552-570 | Exactly the nodes `PopulatePossibleDynamicNodes` reports lose their cluster label, and nothing else changes. |
| PartiallyDeclusterPass.Finish | tensorflow/compiler/jit/partially_decluster_pass.cc:588-607 | The steps after the dynamic-op step run in the source's order, and every graph they describe is well formed. |
| PartiallyDeclusterPass.MissingOptionsReportedAfterDeviceToHost | tensorflow/compiler/jit/partially_decluster_pass.cc:588-600 | A missing `flib_def` or `env` gives INVALID_ARGUMENT, but only after the device-to-host step has succeeded, and the graph keeps that step's rewrite. A failure of that step is reported instead. |
| PartiallyDeclusterPass.FinishNeverClusters | tensorflow/compiler/jit/partially_decluster_pass.cc:575-608 | The pass only takes nodes out of clusters, and never puts a node into a cluster it was not in. |
| PartiallyDeclusterPass.Run | tensorflow/compiler/jit/partially_decluster_pass.cc:575-608 | The dynamic-op step runs only when enabled. It then takes exactly the nodes that `PopulatePossibleDynamicNodes` reports out of their clusters, and otherwise changes nothing. The remaining steps then give `Finish`'s status and graph. |

## Left out

- Concurrency in the compilation cache: the mutexes, the compiler thread pool and the `GUARDED_BY` discipline. The model is sequential, and a background compilation is split into the request that starts it and `FinishAsyncCompilation`.
- Entry ownership in the cache: `cache_` owns each `Entry` through a `unique_ptr`, and the model stores the entry's value in the table. Access to an `Entry*` kept after the table's lock is released is not modelled.
- The compiler, `BuildExecutable`, `BuildSignature`, the signature hash, the compile-time clock and the megamorphism heuristic are oracles or parameters. Signature equality is datatype equality.
- Compilation-cache behaviour that only `xla_compilation_cache.cc` could show (logging, the heuristic's exact thresholds, the execution count) is not modelled. `xla_compilation_cache.cc` is not part of this model.
- `IsVoltaOrLater`, `GetDnnWorkspaceLimit`, `ShouldIncludeWinogradNonfusedAlgo` and its pre-cuDNN-7 variant (floating-point size arithmetic), and `ToString` are not modelled.
- `Hash64Combine` is an uninterpreted function, and `allocate_temp` is a success/failure input. The data handed back by `AllocateBytes` is reduced to its size.
- ConvOpsGpu.DnnScratchAllocator.AllocateBytes: `total_byte_size_` is an unbounded integer, so a 64-bit overflow of the running total is not modelled.
- `DeviceNameToDeviceType`, `MemoryTypesForNode`, `FindKernelDef` and `XlaOpRegistry::GetCompilationDevice` are total lookups. Their error returns are not modelled.
- `AddNode` failure in `PartiallyDeclusterNode` is not modelled: the clone carries the registered op of the node it copies.
- The graph's edges are a set: parallel edges with identical endpoints and slots collapse. The order in which `out_edges()`, `in_edges()` and `out_nodes()` are visited is chosen nondeterministically.
- `GetPostOrder`, `GetReversePostOrder`, `op_nodes()` and the `NotBackedge` edge filter are abstracted to node orders that list every node exactly once. The filter's effect on the order is not modelled.
- The re-run of `FindNodesToDecluster` after declustering, and its `CHECK` at partially_decluster_pass.cc:250, are modelled as a possible failure. That the CHECK always holds is not proved: it depends on the memory-type queries.
- ReduceRecompilation.DeclusterStep: a compile-time constant outside every cluster is skipped. The source dereferences its absent cluster name; whatever it reads, removing the node from a cluster it is not in changes nothing.
- `BackwardsConstAnalysis` and the function-library runtime it uses are one query that returns the constant nodes or an error.
- Environment variables are inputs: `TF_XLA_DYNAMIC_OPS` is a string parameter, and `TF_XLA_DECLUSTER_POSSIBLE_DYNAMIC_OPS` is a boolean in `Environment`. Their read errors (`TF_CHECK_OK`) are not modelled.
- The `visited` map of `PopulatePossibleDynamicNodes` is modelled as the set of names mapped to true. A name mapped to false and an absent name behave alike in every lookup the source makes.
- DeclusterPossibleDynamicOps.PopulatePossibleDynamicNodes: a reported node is stated to be reachable from a seed's consumer through its cluster. The soundness clause drops the restriction to nodes the loop has not met, which the coverage clause keeps.
- Completeness of the dynamic-op searches is stated for graphs whose node names are unique, as a TensorFlow graph's are. `visited` is keyed by name, so with duplicate names only soundness holds.
- VLOG and LOG output, `DebugString` and `MergeDebugInfo` are not modelled.
- `gemm_algorithm_picker.h` is not part of this model: it holds declarations only.
