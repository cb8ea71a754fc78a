/** `XlaCompilationCache`: a table from compilation signatures to entries
    that remember whether, and with what outcome, the signature was compiled.

    Only the class declaration is available, so the request path follows its
    field defaults, constants and doc-comments.  The model is sequential:
    locks and the thread pool are left out, and a background compilation is
    split into the request that starts it and a separate completion step.
    The compiler, `BuildExecutable`, the compile-time clock and the
    megamorphism heuristic are oracles passed in with each call. */
module CompilationCache {
  import opened Errors

  datatype CompileMode = Lazy | Strict | Async

  datatype CompileState = Uncompiled | Compiling | Compiled

  /** A host tensor holding a compile-time constant argument. */
  datatype TensorValue = TensorValue(dtype: int, shape: seq<int>, data: seq<int>)

  /** The cache key: compared field by field, as a datatype value. */
  datatype Signature = Signature(
    name: string,
    argShapes: seq<(int, seq<int>)>,
    argValues: seq<TensorValue>)

  /** Opaque outputs of `XlaCompiler` and of `BuildExecutable`. */
  datatype CompilationResult = CompilationResult(id: nat)
  datatype Executable = Executable(id: nat)

  /** What compiling once and building the executable reports.  A successful
      build may have no executable: the computation has no non-constant
      outputs. */
  datatype CompilerOutcome =
    | Built(result: CompilationResult, executable: Option<Executable>)
    | Rejected(code: Code, message: string)

  /** What `Compile` hands back: its status and the two out parameters
      (`None` is null). */
  datatype Reply = Reply(status: Status, result: Option<CompilationResult>, executable: Option<Executable>)

  const NoResult := Reply(Ok, None, None)

  /** `kNrofCompilerThreads` and `kMaxNrofOngoingCompilations`. */
  const NrofCompilerThreads: nat := 10
  const MaxNrofOngoingCompilations: nat := NrofCompilerThreads

  /** `kDefaultCompilationThreshold`. */
  const DefaultCompilationThreshold: nat := 0

  // ---------------------------------------------------------------------
  // One entry's state machine, on values
  // ---------------------------------------------------------------------

  /** The fields of an `Entry`. */
  datatype EntryValue = EntryValue(
    compileState: CompileState,
    requestCount: int,
    compilationStatus: Status,
    compilationResult: Option<CompilationResult>,
    executable: Option<Executable>)

  /** The field defaults of a new `Entry`. */
  const FreshEntry := EntryValue(Uncompiled, 0, Ok, None, None)

  /** Only a finished compilation has a status, a result or an executable,
      and a successful one has a result. */
  predicate WellFormed(e: EntryValue)
  {
    e.requestCount >= 0 &&
    (e.compileState != Compiled ==>
       e.compilationStatus == Ok && e.compilationResult == None && e.executable == None) &&
    (e.compileState == Compiled && e.compilationStatus == Ok ==> e.compilationResult.Some?) &&
    (e.compilationStatus != Ok ==> e.compilationResult == None && e.executable == None)
  }

  function Rank(s: CompileState): nat
  {
    match s
    case Uncompiled => 0
    case Compiling => 1
    case Compiled => 2
  }

  /** Whether a request that finds its entry uncompiled goes on to compile:
      strict mode always does; otherwise a megamorphic cluster never does,
      and a signature must have been requested `threshold` times. */
  function ShouldCompile(mode: CompileMode, requestCount: int, isMegamorphic: bool,
                         threshold: nat): bool
  {
    mode == Strict || (!isMegamorphic && requestCount >= threshold)
  }

  /** What a request does once it has counted itself. */
  datatype Decision =
    | ReturnCompiled   // the entry was compiled before: reuse it
    | ReturnPending    // a background compilation is under way
    | NotProfitable    // the heuristics decline to compile now
    | PoolSaturated    // async mode, but enough compilations are ongoing
    | StartAsync       // hand the compilation to a background thread
    | CompileNow       // compile on the caller's thread

  function Decide(e: EntryValue, mode: CompileMode, isMegamorphic: bool,
                  nrofOngoing: int, threshold: nat): Decision
  {
    match e.compileState
    case Compiled => ReturnCompiled
    case Compiling => ReturnPending
    case Uncompiled =>
      if !ShouldCompile(mode, e.requestCount + 1, isMegamorphic, threshold) then NotProfitable
      else if mode != Async then CompileNow
      else if nrofOngoing < MaxNrofOngoingCompilations then StartAsync
      else PoolSaturated
  }

  /** The entry after its (one) compilation finished with `outcome`. */
  function Finished(e: EntryValue, outcome: CompilerOutcome): EntryValue
  {
    match outcome
    case Built(r, x) => e.(compileState := Compiled, compilationStatus := Ok,
                           compilationResult := Some(r), executable := x)
    case Rejected(c, m) => e.(compileState := Compiled, compilationStatus := Error(c, m),
                              compilationResult := None, executable := None)
  }

  /** What a request on a compiled entry returns: the recorded error, or
      the recorded result and executable. */
  function CompiledReply(e: EntryValue): Reply
  {
    if e.compilationStatus.IsOk() then Reply(Ok, e.compilationResult, e.executable)
    else Reply(e.compilationStatus, None, None)
  }

  datatype Step = Step(entry: EntryValue, reply: Reply, decision: Decision)

  /** One request for the entry's signature.  `outcome` is what the compiler
      would report, used only when this request compiles. */
  function Request(e: EntryValue, mode: CompileMode, isMegamorphic: bool, nrofOngoing: int,
                   threshold: nat, outcome: CompilerOutcome): (s: Step)
    requires WellFormed(e)
    ensures WellFormed(s.entry)
    ensures s.entry.requestCount == e.requestCount + 1
    ensures Rank(e.compileState) <= Rank(s.entry.compileState)
    ensures e.compileState != Uncompiled ==> s.entry == e.(requestCount := e.requestCount + 1)
    ensures e.compileState == Compiled ==> s.reply == CompiledReply(e)
    ensures e.compileState == Compiling ==> s.decision == ReturnPending && s.reply == NoResult
    ensures e.compileState == Uncompiled && mode == Strict ==> s.decision == CompileNow
    ensures e.compileState == Uncompiled && !ShouldCompile(mode, e.requestCount + 1, isMegamorphic, threshold) ==>
      s.decision == NotProfitable && s.reply == NoResult
    ensures e.compileState == Uncompiled && mode == Lazy &&
      ShouldCompile(mode, e.requestCount + 1, isMegamorphic, threshold)
      ==> s.decision == CompileNow
    ensures e.compileState == Uncompiled && mode == Async &&
      ShouldCompile(mode, e.requestCount + 1, isMegamorphic, threshold)
      ==> && (s.decision == StartAsync <==> nrofOngoing < MaxNrofOngoingCompilations)
          && (s.decision != StartAsync ==> s.decision == PoolSaturated && s.reply == NoResult)
    ensures s.decision == CompileNow ==> s.entry.compileState == Compiled
    ensures s.decision == StartAsync ==> s.entry.compileState == Compiling
    ensures s.reply.result.Some? <==> s.entry.compileState == Compiled && s.entry.compilationStatus.IsOk()
    ensures s.reply.result.None? ==> s.reply.executable.None?
  {
    var counted := e.(requestCount := e.requestCount + 1);
    var d := Decide(e, mode, isMegamorphic, nrofOngoing, threshold);
    match d
    case ReturnCompiled => Step(counted, CompiledReply(counted), d)
    case CompileNow =>
      var done := Finished(counted, outcome);
      Step(done, CompiledReply(done), d)
    case StartAsync => Step(counted.(compileState := Compiling), NoResult, d)
    case _ => Step(counted, NoResult, d)
  }

  /** A strict request on an uncompiled entry compiles, and hands back what
      the compiler reported. */
  lemma StrictCompilesOnMiss(e: EntryValue, isMegamorphic: bool, nrofOngoing: int,
                             threshold: nat, outcome: CompilerOutcome)
    requires WellFormed(e) && e.compileState == Uncompiled
    ensures var s := Request(e, Strict, isMegamorphic, nrofOngoing, threshold, outcome);
      s.entry.compileState == Compiled &&
      (outcome.Built? ==> s.reply == Reply(Ok, Some(outcome.result), outcome.executable)) &&
      (outcome.Rejected? ==> s.reply == Reply(Error(outcome.code, outcome.message), None, None))
  {
  }

  /** A lazy or async request that does not compile returns null for both
      the result and the executable, and leaves the entry uncompiled. */
  lemma DeclinedRequestReturnsNulls(e: EntryValue, mode: CompileMode, isMegamorphic: bool,
                                    nrofOngoing: int, threshold: nat, outcome: CompilerOutcome)
    requires WellFormed(e) && e.compileState == Uncompiled
    requires var d := Request(e, mode, isMegamorphic, nrofOngoing, threshold, outcome).decision;
      d == NotProfitable || d == PoolSaturated
    ensures var s := Request(e, mode, isMegamorphic, nrofOngoing, threshold, outcome);
      mode != Strict && s.reply == NoResult && s.entry.compileState == Uncompiled
  {
  }

  /** Once a cluster is megamorphic, no lazy or async request compiles it. */
  lemma MegamorphicNeverCompiles(e: EntryValue, mode: CompileMode, nrofOngoing: int,
                                 threshold: nat, outcome: CompilerOutcome)
    requires WellFormed(e) && mode != Strict
    ensures var d := Request(e, mode, true, nrofOngoing, threshold, outcome).decision;
      d != CompileNow && d != StartAsync
  {
  }

  /** The background job's completion: the entry is compiled with `outcome`. */
  function Complete(e: EntryValue, outcome: CompilerOutcome): (r: EntryValue)
    requires WellFormed(e) && e.compileState == Compiling
    ensures WellFormed(r) && r.compileState == Compiled && r.requestCount == e.requestCount
    ensures outcome.Built? ==> CompiledReply(r) == Reply(Ok, Some(outcome.result), outcome.executable)
    ensures outcome.Rejected? ==> CompiledReply(r) == Reply(Error(outcome.code, outcome.message), None, None)
  {
    Finished(e, outcome)
  }

  // ---------------------------------------------------------------------
  // Sequences of requests for one signature
  // ---------------------------------------------------------------------

  /** Things that happen to one entry: a request, or the end of its
      background compilation. */
  datatype Event =
    | Req(mode: CompileMode, isMegamorphic: bool, nrofOngoing: int, outcome: CompilerOutcome)
    | Done(outcome: CompilerOutcome)

  /** The entry after `events`, with the number of compiler invocations they
      caused (a started background job invokes the compiler once).  A
      completion without a running job cannot happen and is skipped. */
  function Replay(e: EntryValue, events: seq<Event>, threshold: nat): (r: (EntryValue, nat))
    requires WellFormed(e)
    ensures WellFormed(r.0)
    decreases |events|
  {
    if events == [] then (e, 0)
    else
      var (before, n) := Replay(e, events[..|events| - 1], threshold);
      match events[|events| - 1]
      case Req(mode, meg, nrof, outcome) =>
        var s := Request(before, mode, meg, nrof, threshold, outcome);
        (s.entry, if s.decision == CompileNow || s.decision == StartAsync then n + 1 else n)
      case Done(outcome) =>
        if before.compileState == Compiling then (Complete(before, outcome), n) else (before, n)
  }

  /** At most one compilation per signature: from a fresh entry, whatever
      happens, the compiler has been invoked once if the entry left
      `Uncompiled` and never otherwise. */
  lemma {:induction false} AtMostOneCompilation(events: seq<Event>, threshold: nat)
    ensures var (e, n) := Replay(FreshEntry, events, threshold);
      n == (if e.compileState == Uncompiled then 0 else 1)
    ensures Replay(FreshEntry, events, threshold).1 <= 1
    decreases |events|
  {
    if events != [] {
      AtMostOneCompilation(events[..|events| - 1], threshold);
    }
  }

  /** Once compiled, an entry keeps its outcome: every later request
      returns the same reply and only counts itself. */
  lemma {:induction false} CompiledIsFinal(e: EntryValue, events: seq<Event>, threshold: nat)
    requires WellFormed(e) && e.compileState == Compiled
    ensures var (e', n) := Replay(e, events, threshold);
      n == 0 && CompiledReply(e') == CompiledReply(e) &&
      e' == e.(requestCount := e'.requestCount)
    decreases |events|
  {
    if events != [] {
      CompiledIsFinal(e, events[..|events| - 1], threshold);
    }
  }

  /** `k` lazy requests from callers that see a non-megamorphic cluster. */
  function LazyRequests(k: nat, outcome: CompilerOutcome): (evs: seq<Event>)
    ensures |evs| == k
  {
    seq(k, _ => Req(Lazy, false, 0, outcome))
  }

  /** The lazy threshold: the first `threshold - 1` lazy requests for a fresh
      signature do not compile, and the `threshold`-th (the first one when
      the threshold is 0 or 1) compiles exactly once. */
  lemma {:induction false} LazyThreshold(k: nat, threshold: nat, outcome: CompilerOutcome)
    ensures var (e, n) := Replay(FreshEntry, LazyRequests(k, outcome), threshold);
      e.requestCount == k &&
      (e.compileState == Compiled <==> k >= 1 && k >= threshold) &&
      (e.compileState == Uncompiled <==> !(k >= 1 && k >= threshold)) &&
      n == (if k >= 1 && k >= threshold then 1 else 0)
  {
    if k > 0 {
      assert LazyRequests(k, outcome)[..k - 1] == LazyRequests(k - 1, outcome);
      LazyThreshold(k - 1, threshold, outcome);
    }
  }

  /** With the default threshold a lazy request compiles on the first call;
      the second call reuses that result, without compiling again, and the
      entry has counted two requests. */
  lemma LazyDefaultScenario(r: CompilationResult, x: Option<Executable>)
    ensures var first := Request(FreshEntry, Lazy, false, 0, DefaultCompilationThreshold, Built(r, x));
      first.decision == CompileNow && first.reply == Reply(Ok, Some(r), x) &&
      var second := Request(first.entry, Lazy, false, 0, DefaultCompilationThreshold, Built(r, x));
      second.decision == ReturnCompiled && second.reply == first.reply &&
      second.entry.requestCount == 2
  {
  }

  // ---------------------------------------------------------------------
  // Per-cluster statistics
  // ---------------------------------------------------------------------

  datatype ClusterCompileStats = ClusterCompileStats(
    compileCount: int,
    executionCount: int,
    cumulativeCompileTimeUs: int,
    maxCompileTimeS: int,
    isMegamorphic: bool)

  const FreshStats := ClusterCompileStats(0, 0, 0, 0, false)

  /** The statistics after one more compilation taking `elapsedUs`
      microseconds; `judgedMegamorphic` is the heuristics' verdict. */
  function RecordCompilation(s: ClusterCompileStats, elapsedUs: nat, judgedMegamorphic: bool)
    : (r: ClusterCompileStats)
    ensures r.compileCount == s.compileCount + 1
    ensures r.executionCount == s.executionCount
    ensures r.cumulativeCompileTimeUs == s.cumulativeCompileTimeUs + elapsedUs
    ensures r.maxCompileTimeS >= s.maxCompileTimeS && r.maxCompileTimeS >= elapsedUs / 1_000_000
    ensures r.maxCompileTimeS == s.maxCompileTimeS || r.maxCompileTimeS == elapsedUs / 1_000_000
    ensures r.isMegamorphic <==> s.isMegamorphic || judgedMegamorphic
  {
    var seconds := elapsedUs / 1_000_000;
    ClusterCompileStats(
      s.compileCount + 1,
      s.executionCount,
      s.cumulativeCompileTimeUs + elapsedUs,
      if seconds > s.maxCompileTimeS then seconds else s.maxCompileTimeS,
      s.isMegamorphic || judgedMegamorphic)
  }

  /** Whether the statistics mark `functionName`'s cluster megamorphic. */
  function Megamorphic(stats: map<string, ClusterCompileStats>, functionName: string): bool
  {
    functionName in stats && stats[functionName].isMegamorphic
  }

  /** The statistics after one more compilation of `functionName`: only
      its record changes, counting one more compilation, and a megamorphic
      cluster stays megamorphic. */
  function StatsAfterCompilation(stats: map<string, ClusterCompileStats>, functionName: string,
                                 elapsedUs: nat, judgedMegamorphic: bool)
    : (r: map<string, ClusterCompileStats>)
    ensures r.Keys == stats.Keys + {functionName}
    ensures forall f :: f in stats && f != functionName ==> r[f] == stats[f]
    ensures r[functionName].compileCount ==
      (if functionName in stats then stats[functionName].compileCount else 0) + 1
    ensures forall f :: Megamorphic(stats, f) ==> Megamorphic(r, f)
  {
    var record := if functionName in stats then stats[functionName] else FreshStats;
    stats[functionName := RecordCompilation(record, elapsedUs, judgedMegamorphic)]
  }

  // ---------------------------------------------------------------------
  // The cache object
  // ---------------------------------------------------------------------

  /** The cache.  Each `Entry` is owned by its slot of `cache_` (a
      `unique_ptr`), so updating an entry in place is modelled as
      replacing the slot's value. */
  class XlaCompilationCache {
    var cache: map<Signature, EntryValue>
    var clusterCompileStats: map<string, ClusterCompileStats>
    var nrofOngoingCompilations: int
    /** The signatures whose background compilation is under way. */
    ghost var ongoing: set<Signature>

    /** Every entry is well formed, and `nrofOngoingCompilations` counts
        exactly the entries being compiled in the background, never more
        than `kMaxNrofOngoingCompilations`. */
    ghost predicate Valid()
      reads this
    {
      (forall s :: s in cache ==> WellFormed(cache[s])) &&
      ongoing <= cache.Keys &&
      (forall s :: s in cache ==> (cache[s].compileState == Compiling <==> s in ongoing)) &&
      nrofOngoingCompilations == |ongoing| <= MaxNrofOngoingCompilations
    }

    /** The value of `sig`'s entry; a signature not yet seen has a fresh one. */
    function EntryOf(sig: Signature): EntryValue
      reads this
    {
      if sig in cache then cache[sig] else FreshEntry
    }

    constructor ()
      ensures Valid()
      ensures cache == map[] && clusterCompileStats == map[]
      ensures nrofOngoingCompilations == 0 && ongoing == {}
    {
      cache := map[];
      clusterCompileStats := map[];
      nrofOngoingCompilations := 0;
      ongoing := {};
    }

    /** What every request guarantees: `sig`'s entry follows `Request` and
        no other entry changes, the statistics change only for `function`
        and only after a compilation, megamorphic stays megamorphic, and
        the ongoing count grows only when a background compilation
        starts. */
    twostate predicate Served(functionName: string, sig: Signature, mode: CompileMode,
                              outcome: CompilerOutcome, elapsedUs: nat,
                              judgedMegamorphic: bool, reply: Reply)
      reads this
      requires old(Valid())
    {
      var s := Request(old(EntryOf(sig)), mode, Megamorphic(old(clusterCompileStats), functionName),
                       old(nrofOngoingCompilations), DefaultCompilationThreshold, outcome);
      && cache == old(cache)[sig := s.entry]
      && reply == s.reply
      && (clusterCompileStats ==
            if s.decision == CompileNow
            then StatsAfterCompilation(old(clusterCompileStats), functionName, elapsedUs, judgedMegamorphic)
            else old(clusterCompileStats))
      && (forall f :: Megamorphic(old(clusterCompileStats), f) ==> Megamorphic(clusterCompileStats, f))
      && (nrofOngoingCompilations ==
            old(nrofOngoingCompilations) + (if s.decision == StartAsync then 1 else 0))
    }

    /** Looks up `sig`'s entry, adding a fresh one when the signature is new. */
    method LookupOrCreate(sig: Signature)
      requires Valid()
      modifies this
      ensures Valid()
      ensures sig in cache && cache == old(cache)[sig := old(EntryOf(sig))]
      ensures clusterCompileStats == old(clusterCompileStats)
      ensures nrofOngoingCompilations == old(nrofOngoingCompilations) && ongoing == old(ongoing)
    {
      if sig !in cache {
        cache := cache[sig := FreshEntry];
      }
    }

    /** Counts one more request for `sig`. */
    method CountRequest(sig: Signature)
      requires Valid() && sig in cache
      modifies this
      ensures Valid()
      ensures cache == old(cache)[sig := old(cache[sig]).(requestCount := old(cache[sig].requestCount) + 1)]
      ensures clusterCompileStats == old(clusterCompileStats)
      ensures nrofOngoingCompilations == old(nrofOngoingCompilations) && ongoing == old(ongoing)
    {
      cache := cache[sig := cache[sig].(requestCount := cache[sig].requestCount + 1)];
    }

    /** Hands `sig`'s compilation to a background thread. */
    method BeginAsyncCompilation(sig: Signature)
      requires Valid() && sig in cache && cache[sig].compileState == Uncompiled
      requires nrofOngoingCompilations < MaxNrofOngoingCompilations
      modifies this
      ensures Valid()
      ensures cache == old(cache)[sig := old(cache[sig]).(compileState := Compiling)]
      ensures clusterCompileStats == old(clusterCompileStats)
      ensures ongoing == old(ongoing) + {sig}
      ensures nrofOngoingCompilations == old(nrofOngoingCompilations) + 1
    {
      cache := cache[sig := cache[sig].(compileState := Compiling)];
      nrofOngoingCompilations := nrofOngoingCompilations + 1;
      ongoing := ongoing + {sig};
    }

    /** Compiles `sig` on the caller's thread and counts the compilation in
        the cluster's statistics. */
    method CompileStrict(functionName: string, sig: Signature,
                         outcome: CompilerOutcome, elapsedUs: nat, judgedMegamorphic: bool)
      requires Valid() && sig in cache && cache[sig].compileState == Uncompiled
      modifies this
      ensures Valid()
      ensures cache == old(cache)[sig := Finished(old(cache[sig]), outcome)]
      ensures clusterCompileStats == StatsAfterCompilation(old(clusterCompileStats), functionName, elapsedUs, judgedMegamorphic)
      ensures nrofOngoingCompilations == old(nrofOngoingCompilations) && ongoing == old(ongoing)
    {
      clusterCompileStats := StatsAfterCompilation(clusterCompileStats, functionName, elapsedUs, judgedMegamorphic);
      cache := cache[sig := Finished(cache[sig], outcome)];
    }

    /** The rest of a request once `sig`'s entry has counted it (`before`
        is the entry as it was found): compiles, starts a background
        compilation, or returns what is known. */
    method Advance(functionName: string, sig: Signature, mode: CompileMode,
                   outcome: CompilerOutcome, elapsedUs: nat, judgedMegamorphic: bool,
                   ghost before: EntryValue)
      returns (reply: Reply)
      requires Valid() && sig in cache && WellFormed(before)
      requires cache[sig] == before.(requestCount := before.requestCount + 1)
      modifies this
      ensures Valid()
      ensures var s := Request(before, mode, Megamorphic(old(clusterCompileStats), functionName),
                               old(nrofOngoingCompilations), DefaultCompilationThreshold, outcome);
        && cache == old(cache)[sig := s.entry]
        && reply == s.reply
        && (clusterCompileStats ==
              if s.decision == CompileNow
              then StatsAfterCompilation(old(clusterCompileStats), functionName, elapsedUs, judgedMegamorphic)
              else old(clusterCompileStats))
        && (nrofOngoingCompilations ==
              old(nrofOngoingCompilations) + (if s.decision == StartAsync then 1 else 0))
      ensures forall f :: Megamorphic(old(clusterCompileStats), f) ==> Megamorphic(clusterCompileStats, f)
    {
      var entry := cache[sig];
      if entry.compileState == Uncompiled {
        if !ShouldCompile(mode, entry.requestCount, Megamorphic(clusterCompileStats, functionName),
                          DefaultCompilationThreshold) {
          return NoResult;
        }
        if mode == Async {
          if nrofOngoingCompilations >= MaxNrofOngoingCompilations {
            return NoResult;
          }
          BeginAsyncCompilation(sig);
          return NoResult;
        }
        CompileStrict(functionName, sig, outcome, elapsedUs, judgedMegamorphic);
      } else if entry.compileState == Compiling {
        return NoResult;
      }
      reply := CompiledReply(cache[sig]);
    }

    /** `CompileImpl`: looks up or creates the entry, counts the request,
        then compiles, starts a background compilation, or returns what is
        known. */
    method CompileImpl(functionName: string, sig: Signature, mode: CompileMode,
                       outcome: CompilerOutcome, elapsedUs: nat, judgedMegamorphic: bool)
      returns (reply: Reply)
      requires Valid()
      modifies this
      ensures Valid()
      ensures Served(functionName, sig, mode, outcome, elapsedUs, judgedMegamorphic, reply)
    {
      ghost var before := EntryOf(sig);
      LookupOrCreate(sig);
      CountRequest(sig);
      reply := Advance(functionName, sig, mode, outcome, elapsedUs, judgedMegamorphic, before);
    }

    /** `Compile`: compiles the function `function` with signature `sig`. */
    method Compile(functionName: string, sig: Signature, mode: CompileMode,
                   outcome: CompilerOutcome, elapsedUs: nat, judgedMegamorphic: bool)
      returns (reply: Reply)
      requires Valid()
      modifies this
      ensures Valid()
      ensures Served(functionName, sig, mode, outcome, elapsedUs, judgedMegamorphic, reply)
    {
      reply := CompileImpl(functionName, sig, mode, outcome, elapsedUs, judgedMegamorphic);
    }

    /** `CompileSingleOp`: the same path for a single operation, always in
        strict mode (the call takes no mode). */
    method CompileSingleOp(opName: string, sig: Signature, outcome: CompilerOutcome,
                           elapsedUs: nat, judgedMegamorphic: bool)
      returns (reply: Reply)
      requires Valid()
      modifies this
      ensures Valid()
      ensures Served(opName, sig, Strict, outcome, elapsedUs, judgedMegamorphic, reply)
    {
      reply := CompileImpl(opName, sig, Strict, outcome, elapsedUs, judgedMegamorphic);
    }

    /** The end of `sig`'s background compilation, run by a compiler thread:
        the entry records the outcome, one fewer compilation is ongoing, and
        the cluster's statistics count the compilation. */
    method FinishAsyncCompilation(functionName: string, sig: Signature, outcome: CompilerOutcome,
                                  elapsedUs: nat, judgedMegamorphic: bool)
      requires Valid() && sig in ongoing
      modifies this
      ensures Valid()
      ensures cache == old(cache)[sig := Complete(old(cache[sig]), outcome)]
      ensures ongoing == old(ongoing) - {sig}
      ensures nrofOngoingCompilations == old(nrofOngoingCompilations) - 1
      ensures clusterCompileStats == StatsAfterCompilation(old(clusterCompileStats), functionName, elapsedUs, judgedMegamorphic)
      ensures forall f :: Megamorphic(old(clusterCompileStats), f) ==> Megamorphic(clusterCompileStats, f)
    {
      cache := cache[sig := Complete(cache[sig], outcome)];
      ongoing := ongoing - {sig};
      nrofOngoingCompilations := nrofOngoingCompilations - 1;
      clusterCompileStats := StatsAfterCompilation(clusterCompileStats, functionName, elapsedUs, judgedMegamorphic);
    }
  }
}
