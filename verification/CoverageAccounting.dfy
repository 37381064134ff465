/** Stable and variable coverage (fuzzer.cpp, RunSample and InterestingSample). */
module CoverageAccounting {
  import opened Coverages

  // ---------- Repeated runs of one sample ----------

  /** What all of these runs covered, and what any of them did. */
  function Stable(runs: seq<Coverage>): Coverage
    requires runs != []
  {
    if |runs| == 1 then runs[0] else Stable(runs[..|runs| - 1]) * runs[|runs| - 1]
  }

  function Total(runs: seq<Coverage>): Coverage {
    if runs == [] then {} else Total(runs[..|runs| - 1]) + runs[|runs| - 1]
  }

  lemma {:induction false} StableIsInAll(runs: seq<Coverage>, x: (string, nat))
    requires runs != []
    ensures x in Stable(runs) <==> forall r :: r in runs ==> x in r
  {
    var n := |runs| - 1;
    assert runs == runs[..n] + [runs[n]];
    if n > 0 {
      StableIsInAll(runs[..n], x);
    }
  }

  lemma {:induction false} TotalIsInSome(runs: seq<Coverage>, x: (string, nat))
    ensures x in Total(runs) <==> exists r :: r in runs && x in r
  {
    if runs != [] {
      var n := |runs| - 1;
      assert runs == runs[..n] + [runs[n]];
      TotalIsInSome(runs[..n], x);
    }
  }

  /** Variable coverage is what some runs have and others miss. */
  lemma VariableIsInSome(runs: seq<Coverage>, x: (string, nat))
    requires runs != []
    ensures x in Difference(Stable(runs), Total(runs))
            <==> (exists r :: r in runs && x in r) && (exists r :: r in runs && x !in r)
  {
    StableIsInAll(runs, x);
    TotalIsInSome(runs, x);
  }

  // ---------- The coverage of the fuzzer ----------

  /** One call of InterestingSample. */
  datatype Call = Call(stable: Coverage, variable: Coverage)

  function Known(calls: seq<Call>): Coverage {
    if calls == [] then {}
    else var last := calls[|calls| - 1]; Known(calls[..|calls| - 1]) + last.stable + last.variable
  }

  /** The stable coverage that a call added. */
  function NewStable(calls: seq<Call>, i: nat): Coverage
    requires i < |calls|
  {
    Difference(Known(calls[..i]), calls[i].stable)
  }

  predicate Accepted(calls: seq<Call>, i: nat)
    requires i < |calls|
  {
    NewStable(calls, i) != {}
  }

  /** How many calls were of accepted samples. */
  function AcceptedCalls(calls: seq<Call>): nat {
    |WhereAccepted(calls)|
  }

  function WhereAccepted(calls: seq<Call>): set<nat> {
    set i | 0 <= i < |calls| && Accepted(calls, i)
  }

  lemma AcceptedMore(calls: seq<Call>, c: Call)
    ensures AcceptedCalls(calls + [c]) == AcceptedCalls(calls) + if Accepted(calls + [c], |calls|) then 1 else 0
  {
    var more, n := calls + [c], |calls|;
    forall i | 0 <= i < n
      ensures Accepted(more, i) <==> Accepted(calls, i)
    {
      assert more[..i] == calls[..i];
    }
    hide Accepted;
    assert WhereAccepted(more) == WhereAccepted(calls) + if Accepted(more, n) then {n} else {};
  }

  lemma {:induction false} KnownGrows(calls: seq<Call>, i: nat)
    requires i <= |calls|
    ensures Known(calls[..i]) <= Known(calls)
  {
    if i == |calls| {
      assert calls[..i] == calls;
    } else {
      KnownGrows(calls[..|calls| - 1], i);
      assert calls[..|calls| - 1][..i] == calls[..i];
    }
  }

  lemma OneMoreCall(calls: seq<Call>, c: Call)
    ensures Known(calls + [c]) == Known(calls) + Difference(Known(calls), c.stable) + Difference(Known(calls), c.variable)
    ensures NewStable(calls + [c], |calls|) == Difference(Known(calls), c.stable)
  {
    assert (calls + [c])[..|calls|] == calls;
  }

  /** No offset counts as new twice: whether it was stable or variable when it came first. */
  lemma NewOnlyOnce(calls: seq<Call>, i: nat, j: nat)
    requires i < j < |calls|
    ensures NewStable(calls, j) !! calls[i].stable + calls[i].variable
    ensures NewStable(calls, i) !! NewStable(calls, j)
  {
    var before := calls[..j];
    KnownGrows(before, i + 1);
    assert before[..i + 1] == calls[..i + 1] && calls[..i + 1][..i] == calls[..i];
    assert calls[i].stable + calls[i].variable <= Known(calls[..i + 1]);
  }

  /** There are no more accepted samples than offsets. */
  lemma {:induction false} AcceptedBounded(calls: seq<Call>)
    ensures AcceptedCalls(calls) <= |Known(calls)|
  {
    if calls != [] {
      var n := |calls| - 1;
      var before := Known(calls[..n]);
      AcceptedBounded(calls[..n]);
      AcceptedMore(calls[..n], calls[n]);
      assert calls[..n] + [calls[n]] == calls;
      hide AcceptedCalls;
      if Accepted(calls, n) {
        assert |before + NewStable(calls, n)| == |before| + |NewStable(calls, n)|;
        SubsetSize(before + NewStable(calls, n), Known(calls));
      } else {
        SubsetSize(before, Known(calls));
      }
    }
  }

  lemma {:induction false} SubsetSize<T>(a: set<T>, b: set<T>)
    requires a <= b
    ensures |a| <= |b|
  {
    assert b == a + (b - a) && |a + (b - a)| == |a| + |b - a|;
  }

  lemma {:induction false} KnownIsReported(calls: seq<Call>, x: (string, nat))
    ensures x in Known(calls) <==> exists c :: c in calls && x in c.stable + c.variable
  {
    if calls != [] {
      var n := |calls| - 1;
      KnownIsReported(calls[..n], x);
      assert calls == calls[..n] + [calls[n]];
    }
  }

  /** A sample is accepted exactly for a stable offset that no earlier sample had, neither
      as stable nor as variable. */
  lemma AcceptedIff(calls: seq<Call>, i: nat)
    requires i < |calls|
    ensures Accepted(calls, i)
            <==> exists x :: x in calls[i].stable && forall c :: c in calls[..i] ==> x !in c.stable + c.variable
  {
    forall x | x in calls[i].stable
      ensures x in NewStable(calls, i) <==> forall c :: c in calls[..i] ==> x !in c.stable + c.variable
    {
      KnownIsReported(calls[..i], x);
    }
    if Accepted(calls, i) {
      var x :| x in NewStable(calls, i);
    }
  }

  // ---------- The fuzzer object ----------

  datatype Options = Options(incrementalCoverage: bool, coverageReproduceRetries: nat)

  class ThreadContext {
    var threadCoverage: Coverage
    const target: Target

    constructor (target: Target)
      ensures this.target == target && threadCoverage == {}
    {
      this.target, threadCoverage := target, {};
    }
  }

  class FuzzerCoverage {
    const options: Options
    var fuzzerCoverage: Coverage
    ghost var calls: seq<Call>

    constructor (options: Options)
      ensures this.options == options && Valid() && calls == []
    {
      this.options, fuzzerCoverage, calls := options, {}, [];
    }

    ghost predicate Valid()
      reads this
    {
      fuzzerCoverage == Known(calls)
    }

    /** The section under `coverage_mutex`. */
    method InterestingSample(stable: Coverage, variable: Coverage)
      returns (interesting: bool, newStable: Coverage, newVariable: Coverage)
      requires Valid()
      modifies this
      ensures Valid() && calls == old(calls) + [Call(stable, variable)]
      ensures newStable == NewStable(calls, |old(calls)|)
      ensures newVariable == Difference(old(fuzzerCoverage), variable)
      ensures interesting <==> Accepted(calls, |old(calls)|)
    {
      OneMoreCall(calls, Call(stable, variable));
      hide Known, NewStable;
      newStable := Difference(fuzzerCoverage, stable);
      newVariable := Difference(fuzzerCoverage, variable);
      fuzzerCoverage := fuzzerCoverage + newStable;
      fuzzerCoverage := fuzzerCoverage + newVariable;
      calls := calls + [Call(stable, variable)];
      interesting := newStable != {};
    }

    /** Runs the sample again; the coverage of all runs when each of them ends well. */
    method Retry(target: Target, sample: string, initial: Coverage)
      returns (ok: bool, stable: Coverage, total: Coverage, ghost runs: seq<Coverage>)
      modifies target
      ensures ok <==> EndWell(target, old(target.next), options.coverageReproduceRetries)
      ensures runs != [] && runs == [initial] + CoveragesAt(target, old(target.next), |runs| - 1)
      ensures ok ==> |runs| == options.coverageReproduceRetries + 1 && stable == Stable(runs) && total == Total(runs)
      ensures RunsOf(sample, target.log, old(target.log)) && target.next - old(target.next) == |target.log| - |old(target.log)|
    {
      stable, total, runs := initial, initial, [initial];
      assert Total(runs) == Total([]) + initial;
      for i := 0 to options.coverageReproduceRetries
        invariant target.next == old(target.next) + i && EndWell(target, old(target.next), i)
        invariant runs == [initial] + CoveragesAt(target, old(target.next), i)
        invariant stable == Stable(runs) && total == Total(runs)
        invariant RunsOf(sample, target.log, old(target.log)) && |target.log| == |old(target.log)| + i
      {
        var retry := target.Run(sample);
        if !retry.ok {
          return false, stable, total, runs;
        }
        RunsMore(runs, retry.coverage);
        total := total + retry.coverage;
        stable := stable * retry.coverage;
        runs := runs + [retry.coverage];
      }
      ok := true;
    }

    /** What RunSample asks of the first run, and of the further ones. */
    ghost predicate WorthReporting(tc: ThreadContext, first: nat)
      reads tc`threadCoverage
    {
      var o := tc.target.OutcomeAt(first);
      && o.ok && o.interesting && o.coverage != {}
      && (options.incrementalCoverage || !(o.coverage <= tc.threadCoverage))
      && EndWell(tc.target, first + 1, options.coverageReproduceRetries)
    }

    /** The coverage part of RunSample: what the sample's runs have in common is stable, the
        rest is variable.  It is reported exactly when the first run is worth it and all end
        well. */
    method RunSample(tc: ThreadContext, sample: string)
      returns (hasNewCoverage: bool, newStable: Coverage, newVariable: Coverage, ghost runs: seq<Coverage>)
      requires Valid()
      modifies this, tc`threadCoverage, tc.target
      ensures Valid() && RunsOf(sample, tc.target.log, old(tc.target.log))
      ensures |tc.target.log| > |old(tc.target.log)|
      ensures runs == if old(WorthReporting(tc, tc.target.next))
                      then CoveragesAt(tc.target, old(tc.target.next), options.coverageReproduceRetries + 1) else []
      ensures runs == [] ==>
                calls == old(calls) && !hasNewCoverage && newStable == newVariable == {}
                && tc.threadCoverage == old(tc.threadCoverage)
      ensures runs != [] ==>
                && calls == old(calls) + [Call(Stable(runs), Difference(Stable(runs), Total(runs)))]
                && (hasNewCoverage <==> Accepted(calls, |old(calls)|))
                && newStable == NewStable(calls, |old(calls)|)
                && newVariable == Difference(Known(old(calls)), Difference(Stable(runs), Total(runs)))
                && tc.threadCoverage == old(tc.threadCoverage) + if options.incrementalCoverage then {} else Total(runs)
    {
      hasNewCoverage, newStable, newVariable, runs := false, {}, {}, [];
      ghost var n := tc.target.next;
      var first := tc.target.Run(sample);
      if !first.ok || !first.interesting || first.coverage == {} {
        return;
      }
      if !options.incrementalCoverage {
        var newThreadCoverage := Difference(tc.threadCoverage, first.coverage);
        NothingNew(tc.threadCoverage, first.coverage);
        if newThreadCoverage == {} {
          return;
        }
      }
      hide Stable, Total, Known, NewStable, Accepted;
      var ok, stable, total, all := Retry(tc.target, sample, first.coverage);
      if !ok {
        return;
      }
      runs := all;
      assert runs == CoveragesAt(tc.target, n, options.coverageReproduceRetries + 1);
      var variable := Difference(stable, total);
      hasNewCoverage, newStable, newVariable := InterestingSample(stable, variable);
      if !options.incrementalCoverage {
        tc.threadCoverage := tc.threadCoverage + total;
      }
    }
  }

  lemma RunsMore(runs: seq<Coverage>, c: Coverage)
    requires runs != []
    ensures Stable(runs + [c]) == Stable(runs) * c && Total(runs + [c]) == Total(runs) + c
  {
    assert (runs + [c])[..|runs|] == runs;
  }

  /** The next `n` runs, from number `from` on, end well. */
  ghost predicate EndWell(target: Target, from: nat, n: nat) {
    forall k :: from <= k < from + n ==> target.OutcomeAt(k).ok
  }

  ghost function CoveragesAt(target: Target, from: nat, n: int): (cs: seq<Coverage>)
    requires n >= 0
    ensures |cs| == n
  {
    seq(n, k requires k >= 0 => target.OutcomeAt(from + k).coverage)
  }

  /** All runs since `before` were of this sample. */
  ghost predicate RunsOf(sample: string, log: seq<(string, Outcome)>, before: seq<(string, Outcome)>) {
    before <= log && forall j :: |before| <= j < |log| ==> log[j].0 == sample
  }
}
