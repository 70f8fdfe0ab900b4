/**
 * The configuration of one benchmark subject (a benchmark method): how many
 * iterations and revolutions to run, which groups it belongs to, the assertions
 * to check against its results, and so on. Setters overwrite one field each; the
 * assertion list is appended to in place.
 */
module Metadata {
  import opened Optional

  /** The benchmark class a subject belongs to; held by reference only. */
  class BenchmarkMetadata {
    constructor() { }
  }

  /** The executor configuration a subject may name; held by reference only. */
  class ExecutorMetadata {
    constructor() { }
  }

  /** One set of parameters: parameter name to value. */
  type ParameterSet = map<string, string>

  /** Every field a setter can change, taken together. */
  datatype Settings = Settings(
    parameterSets: seq<ParameterSet>,
    groups: seq<string>,
    beforeMethods: seq<string>,
    afterMethods: seq<string>,
    paramProviders: seq<string>,
    retryThreshold: Option<real>,
    iterations: seq<int>,
    revs: seq<int>,
    warmup: seq<int>,
    skip: bool,
    sleep: int,
    outputTimeUnit: Option<string>,
    outputTimePrecision: Option<int>,
    outputMode: Option<string>,
    assertions: seq<string>,
    executor: ExecutorMetadata?,
    timeout: Option<real>)

  /** The settings of a subject nobody has configured yet. */
  const Defaults := Settings(
    parameterSets := [],
    groups := [],
    beforeMethods := [],
    afterMethods := [],
    paramProviders := [],
    retryThreshold := None,
    iterations := [1],
    revs := [1],
    warmup := [0],
    skip := false,
    sleep := 0,
    outputTimeUnit := None,
    outputTimePrecision := None,
    outputMode := None,
    assertions := [],
    executor := null,
    timeout := Some(0.0))

  /** The elements of `xs` that also occur in `ys`, in the order and with the repetitions of `xs`. */
  function Intersect(xs: seq<string>, ys: seq<string>): (r: seq<string>)
    ensures |r| <= |xs|
    ensures forall x :: x in r <==> x in xs && x in ys
  {
    if xs == [] then []
    else if xs[0] in ys then [xs[0]] + Intersect(xs[1..], ys)
    else Intersect(xs[1..], ys)
  }

  class SubjectMetadata {
    /** The subject's method name. */
    const name: string
    /** The benchmark the subject belongs to. */
    const benchmark: BenchmarkMetadata

    var parameterSets: seq<ParameterSet>
    var groups: seq<string>
    var beforeMethods: seq<string>
    var afterMethods: seq<string>
    var paramProviders: seq<string>
    var retryThreshold: Option<real>
    var iterations: seq<int>
    var revs: seq<int>
    var warmup: seq<int>
    var skip: bool
    var sleep: int
    var outputTimeUnit: Option<string>
    var outputTimePrecision: Option<int>
    var outputMode: Option<string>
    var assertions: seq<string>
    var executor: ExecutorMetadata?
    var timeout: Option<real>

    /** The current value of every settable field. */
    function Current(): Settings
      reads this
    {
      Settings(parameterSets, groups, beforeMethods, afterMethods, paramProviders, retryThreshold,
               iterations, revs, warmup, skip, sleep, outputTimeUnit, outputTimePrecision,
               outputMode, assertions, executor, timeout)
    }

    /** A new subject has the given name and benchmark and every other field at its default. */
    constructor(benchmark: BenchmarkMetadata, name: string)
      ensures this.name == name && this.benchmark == benchmark
      ensures Current() == Defaults
    {
      this.name := name;
      this.benchmark := benchmark;
      parameterSets := [];
      groups := [];
      beforeMethods := [];
      afterMethods := [];
      paramProviders := [];
      retryThreshold := None;
      iterations := [1];
      revs := [1];
      warmup := [0];
      skip := false;
      sleep := 0;
      outputTimeUnit := None;
      outputTimePrecision := None;
      outputMode := None;
      assertions := [];
      executor := null;
      timeout := Some(0.0);
    }

    /** Whether the subject shares at least one group with `gs`. */
    function InGroups(gs: seq<string>): (r: bool)
      reads this
      ensures r <==> exists g :: g in groups && g in gs
      ensures groups == [] || gs == [] ==> !r
    {
      var common := Intersect(groups, gs);
      assert common != [] ==> common[0] in common;
      |common| > 0
    }

    method SetParameterSets(parameterSets: seq<ParameterSet>)
      modifies this`parameterSets
      ensures Current() == old(Current()).(parameterSets := parameterSets)
    {
      this.parameterSets := parameterSets;
    }

    method SetGroups(groups: seq<string>)
      modifies this`groups
      ensures Current() == old(Current()).(groups := groups)
    {
      this.groups := groups;
    }

    method SetBeforeMethods(beforeMethods: seq<string>)
      modifies this`beforeMethods
      ensures Current() == old(Current()).(beforeMethods := beforeMethods)
    {
      this.beforeMethods := beforeMethods;
    }

    method SetAfterMethods(afterMethods: seq<string>)
      modifies this`afterMethods
      ensures Current() == old(Current()).(afterMethods := afterMethods)
    {
      this.afterMethods := afterMethods;
    }

    /** Sets the providers and hands back the subject itself, for chaining. */
    method SetParamProviders(paramProviders: seq<string>) returns (self: SubjectMetadata)
      modifies this`paramProviders
      ensures self == this
      ensures Current() == old(Current()).(paramProviders := paramProviders)
    {
      this.paramProviders := paramProviders;
      self := this;
    }

    method SetIterations(iterations: seq<int>)
      modifies this`iterations
      ensures Current() == old(Current()).(iterations := iterations)
    {
      this.iterations := iterations;
    }

    method SetRevs(revs: seq<int>)
      modifies this`revs
      ensures Current() == old(Current()).(revs := revs)
    {
      this.revs := revs;
    }

    method SetSkip(skip: bool)
      modifies this`skip
      ensures Current() == old(Current()).(skip := skip)
    {
      this.skip := skip;
    }

    method SetSleep(sleep: int)
      modifies this`sleep
      ensures Current() == old(Current()).(sleep := sleep)
    {
      this.sleep := sleep;
    }

    method SetOutputTimeUnit(outputTimeUnit: Option<string>)
      modifies this`outputTimeUnit
      ensures Current() == old(Current()).(outputTimeUnit := outputTimeUnit)
    {
      this.outputTimeUnit := outputTimeUnit;
    }

    method SetOutputTimePrecision(outputTimePrecision: Option<int>)
      modifies this`outputTimePrecision
      ensures Current() == old(Current()).(outputTimePrecision := outputTimePrecision)
    {
      this.outputTimePrecision := outputTimePrecision;
    }

    method SetOutputMode(outputMode: Option<string>)
      modifies this`outputMode
      ensures Current() == old(Current()).(outputMode := outputMode)
    {
      this.outputMode := outputMode;
    }

    method SetWarmup(warmup: seq<int>)
      modifies this`warmup
      ensures Current() == old(Current()).(warmup := warmup)
    {
      this.warmup := warmup;
    }

    method SetRetryThreshold(retryThreshold: Option<real>)
      modifies this`retryThreshold
      ensures Current() == old(Current()).(retryThreshold := retryThreshold)
    {
      this.retryThreshold := retryThreshold;
    }

    /** Appends one assertion after those already there. */
    method AddAssertion(assertion: string)
      modifies this`assertions
      ensures assertions == old(assertions) + [assertion]
      ensures Current() == old(Current()).(assertions := assertions)
    {
      assertions := assertions + [assertion];
    }

    /** Empties the assertion list, then appends each of `xs` in turn. */
    method SetAssertions(xs: seq<string>)
      modifies this`assertions
      ensures Current() == old(Current()).(assertions := xs)
    {
      assertions := [];
      for i := 0 to |xs|
        invariant assertions == xs[..i]
        invariant Current() == old(Current()).(assertions := assertions)
      {
        AddAssertion(xs[i]);
      }
    }

    method SetExecutor(executor: ExecutorMetadata)
      modifies this`executor
      ensures Current() == old(Current()).(executor := executor)
    {
      this.executor := executor;
    }

    method SetTimeout(timeout: Option<real>)
      modifies this`timeout
      ensures Current() == old(Current()).(timeout := timeout)
    {
      this.timeout := timeout;
    }
  }

  /**
   * Group membership is symmetric in the two lists and does not depend on their
   * order or repetitions: only which groups occur counts.
   */
  lemma IntersectEmptyIffDisjoint(xs: seq<string>, ys: seq<string>)
    ensures Intersect(xs, ys) == [] <==> forall x :: x in xs ==> x !in ys
    ensures Intersect(xs, ys) == [] <==> Intersect(ys, xs) == []
  {
    var a := Intersect(xs, ys);
    var b := Intersect(ys, xs);
    assert a != [] ==> a[0] in a;
    assert b != [] ==> b[0] in b;
  }
}
