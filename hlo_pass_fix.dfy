/** `HloPassFix<Pass>`: runs an inner HLO pass again and again until it reports
    that it changed nothing, giving up after a fixed number of runs.

    The inner pass is an oracle: `pass(i)` is what its (i+1)-th run reports,
    either whether it changed the module or an error status.  Its effect on the
    module itself is not modelled. */
module HloPassFix {
  import opened Errors

  /** `kLimit`: the most runs of the inner pass in one fixed-point run. */
  const Limit: nat := 25

  type PassOracle = nat -> StatusOr<bool>

  /** What the fixed-point loop returns, and how many times it ran the inner pass. */
  datatype FixOutcome = FixOutcome(result: StatusOr<bool>, calls: nat)

  /** Reference definition of the loop from the i-th run on, where `changed`
      says whether an earlier run reported a change. */
  function FixFrom(pass: PassOracle, i: nat, changed: bool): FixOutcome
    requires i < Limit
    decreases Limit - i
  {
    match pass(i)
    case Failure(c, m) => FixOutcome(Failure(c, m), i + 1)
    case Value(b) =>
      if i + 1 == Limit then FixOutcome(Value(false), i + 1)
      else if b then FixFrom(pass, i + 1, true)
      else FixOutcome(Value(changed), i + 1)
  }

  function FixedPoint(pass: PassOracle): FixOutcome
  {
    FixFrom(pass, 0, false)
  }

  /** The rules of the loop from run i on: every run before the last one
      reported a change, the last run is the first one that did not (or the
      `Limit`-th), and the result is that run's error, `false` at the limit,
      and otherwise whether any run reported a change. */
  lemma {:induction false} FixFromRules(pass: PassOracle, i: nat, changed: bool)
    requires i < Limit
    requires forall j :: 0 <= j < i ==> pass(j) == Value(true)
    requires changed <==> i > 0
    ensures var o := FixFrom(pass, i, changed);
      && i < o.calls <= Limit
      && (forall j :: 0 <= j < o.calls - 1 ==> pass(j) == Value(true))
      && (o.calls == Limit || pass(o.calls - 1) != Value(true))
      && o.result == (if pass(o.calls - 1).Failure? then pass(o.calls - 1)
                      else if o.calls == Limit then Value(false)
                      else Value(o.calls > 1))
    decreases Limit - i
  {
    match pass(i)
    case Failure(_, _) =>
    case Value(b) =>
      if i + 1 < Limit && b {
        FixFromRules(pass, i + 1, true);
      }
  }

  /** The contract of a whole fixed-point run: the inner pass runs at least
      once and at most `Limit` times; it runs again only after it reported a
      change; an error is returned as soon as it occurs; reaching the limit
      yields `false`; otherwise the result says whether some run changed the
      module. */
  lemma FixedPointRules(pass: PassOracle)
    ensures var o := FixedPoint(pass);
      && 1 <= o.calls <= Limit
      && (forall j :: 0 <= j < o.calls - 1 ==> pass(j) == Value(true))
      && (o.calls == Limit || pass(o.calls - 1) != Value(true))
      && (pass(o.calls - 1).Failure? ==> o.result == pass(o.calls - 1))
      && (pass(o.calls - 1).Value? && o.calls == Limit ==> o.result == Value(false))
      && (pass(o.calls - 1).Value? && o.calls < Limit ==>
            o.result.Value? &&
            (o.result.value <==> exists j :: 0 <= j < o.calls && pass(j) == Value(true)))
  {
    FixFromRules(pass, 0, false);
    var o := FixedPoint(pass);
    if pass(o.calls - 1).Value? && o.calls < Limit && o.calls > 1 {
      assert pass(0) == Value(true);
    }
  }

  /** `HloPassFix::Run`: `pass` stands for `Pass::Run(module)`. */
  method Run(pass: PassOracle) returns (result: StatusOr<bool>, calls: nat)
    ensures FixOutcome(result, calls) == FixedPoint(pass)
  {
    var changed := false;
    var changedThisIteration := true;
    var iterationCount: nat := 0;
    while changedThisIteration
      invariant iterationCount < Limit
      invariant changedThisIteration ==> FixFrom(pass, iterationCount, changed) == FixedPoint(pass)
      invariant !changedThisIteration ==> FixOutcome(Value(changed), iterationCount) == FixedPoint(pass)
      decreases Limit - iterationCount, changedThisIteration
    {
      var r := pass(iterationCount);
      if r.Failure? {
        return r, iterationCount + 1;
      }
      changedThisIteration := r.value;
      changed := changed || changedThisIteration;
      iterationCount := iterationCount + 1;
      if iterationCount == Limit {
        return Value(false), iterationCount;
      }
    }
    return Value(changed), iterationCount;
  }

  /** `HloPassFix::RunOnModuleGroup`: the same loop, where `pass` stands for
      `Pass::RunOnModuleGroup(module_group)`. */
  method RunOnModuleGroup(pass: PassOracle) returns (result: StatusOr<bool>, calls: nat)
    ensures FixOutcome(result, calls) == FixedPoint(pass)
  {
    var changed := false;
    var changedThisIteration := true;
    var iterationCount: nat := 0;
    while changedThisIteration
      invariant iterationCount < Limit
      invariant changedThisIteration ==> FixFrom(pass, iterationCount, changed) == FixedPoint(pass)
      invariant !changedThisIteration ==> FixOutcome(Value(changed), iterationCount) == FixedPoint(pass)
      decreases Limit - iterationCount, changedThisIteration
    {
      var r := pass(iterationCount);
      if r.Failure? {
        return r, iterationCount + 1;
      }
      changedThisIteration := r.value;
      changed := changed || changedThisIteration;
      iterationCount := iterationCount + 1;
      if iterationCount == Limit {
        return Value(false), iterationCount;
      }
    }
    return Value(changed), iterationCount;
  }
}
