/** Code coverage as the fuzzer sees it: a finite set of offsets in modules.  The
    operations are those of the instrumentation library; difference gives what the second
    coverage adds to the first. */
module Coverages {
  type Coverage = set<(string, nat)>

  function Difference(a: Coverage, b: Coverage): Coverage {
    b - a
  }

  lemma NothingNew(a: Coverage, b: Coverage)
    ensures Difference(a, b) == {} <==> b <= a
  {
    if Difference(a, b) == {} {
      forall x | x in b
        ensures x in a
      {
        assert x !in Difference(a, b);
      }
    }
  }

  /** What one run of the target reports. */
  datatype Outcome = Outcome(ok: bool, interesting: bool, coverage: Coverage)

  /** The target program: any finite record of outcomes, then failing runs.  The log says
      which sample each run was of. */
  class Target {
    const outcomes: seq<Outcome>
    var next: nat
    ghost var log: seq<(string, Outcome)>

    constructor (outcomes: seq<Outcome>)
      ensures this.outcomes == outcomes && next == 0 && log == []
    {
      this.outcomes, next, log := outcomes, 0, [];
    }

    /** What run number `k` will come to. */
    function OutcomeAt(k: nat): Outcome {
      if k < |outcomes| then outcomes[k] else Outcome(false, false, {})
    }

    method Run(sample: string) returns (o: Outcome)
      modifies this`next, this`log
      ensures o == OutcomeAt(old(next)) && next == old(next) + 1
      ensures log == old(log) + [(sample, o)]
    {
      o := OutcomeAt(next);
      next := next + 1;
      log := log + [(sample, o)];
    }
  }
}
