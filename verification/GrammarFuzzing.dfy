/** The grammar part of the fuzzing loop (fuzzer.cpp, FuzzJob, RunSample and SaveSample):
    samples are mutated, run, minimized and remembered, any number of times. */
module GrammarFuzzing {
  import opened Wrappers
  import opened Grammars
  import opened Trees
  import opened TreeNodes
  import opened Pruning
  import opened Generation
  import opened Codec
  import opened Coverages
  import opened CoverageAccounting
  import opened Prng
  import opened Minimizer
  import opened Mutation

  /** The sample decodes to a derivation of the root symbol. */
  ghost predicate IsDerivation(g: Grammar, sample: string) {
    DecodeSample(g, sample).Some? && Derives(g, ROOT, DecodeSample(g, sample).value)
  }

  /** Every run since `before` was of a derivation. */
  ghost predicate RunsDerivations(g: Grammar, log: seq<(string, Outcome)>, before: seq<(string, Outcome)>) {
    before <= log && forall j :: |before| <= j < |log| ==> IsDerivation(g, log[j].0)
  }

  /** The donors are those before and the trees of these samples. */
  ghost predicate Remembers(g: Grammar, donors: seq<Shape>, before: seq<Shape>, saved: seq<string>) {
    && |donors| == |before| + |saved| && before <= donors
    && forall i :: 0 <= i < |saved| ==> DecodeSample(g, saved[i]) == Some(Erase(donors[|before| + i]))
  }

  lemma RemembersMore(
    g: Grammar, donors: seq<Shape>, middle: seq<Shape>, before: seq<Shape>, saved: seq<string>, more: seq<string>)
    requires Remembers(g, middle, before, saved) && Remembers(g, donors, middle, more)
    ensures Remembers(g, donors, before, saved + more)
  {
    hide DecodeSample, Erase;
    var all := saved + more;
    forall i | 0 <= i < |all|
      ensures DecodeSample(g, all[i]) == Some(Erase(donors[|before| + i]))
    {
      if i >= |saved| {
        assert all[i] == more[i - |saved|];
      } else {
        assert donors[|before| + i] == middle[|before| + i];
      }
    }
  }

  /** Some run since `before` was of this sample. */
  ghost predicate WasRun(sample: string, log: seq<(string, Outcome)>, before: seq<(string, Outcome)>) {
    exists j :: |before| <= j < |log| && log[j].0 == sample
  }

  lemma StillWasRun(
    sample: string, log: seq<(string, Outcome)>, from: seq<(string, Outcome)>, to: seq<(string, Outcome)>,
    before: seq<(string, Outcome)>)
    requires before <= from <= to <= log && WasRun(sample, to, from)
    ensures WasRun(sample, log, before)
  {
    var j :| |from| <= j < |to| && to[j].0 == sample;
    assert log[j].0 == sample;
  }

  lemma RunsMoreDerivations(
    g: Grammar, log: seq<(string, Outcome)>, middle: seq<(string, Outcome)>, before: seq<(string, Outcome)>)
    requires RunsDerivations(g, middle, before) && RunsDerivations(g, log, middle)
    ensures RunsDerivations(g, log, before)
  {
    hide IsDerivation;
    forall j | |before| <= j < |log|
      ensures IsDerivation(g, log[j].0)
    {
      assert j < |middle| ==> log[j] == middle[j];
    }
  }

  lemma CutIsDerivation(g: Grammar, accepted: string, tried: string)
    requires WellFormed(g) && IsDerivation(g, accepted) && RunsACut(g, accepted, tried)
    ensures IsDerivation(g, tried)
  {
    var t, u := DecodeSample(g, accepted).value, DecodeSample(g, tried).value;
    forall a: Value, b: Value | Prunes(g)(a, b)
      ensures a.tag != STRING && (Derives(g, a.text, a) ==> Derives(g, a.text, b))
    {
      var pos: nat :| CanCut(g, a, pos) && b == Pruned(g, a, pos);
      EraseValues([a]);
      EraseValues([b]);
      assert EraseAll([a])[0] == Erase(a) && EraseAll([b])[0] == Erase(b);
      if Derives(g, a.text, a) {
        PrunedDerives(g, a, pos);
      }
    }
    hide Derives, DecodeSample;
    ChangedDerives(g, ROOT, t, u, Prunes(g));
  }

  /** Minimizing a derivation runs derivations only. */
  lemma {:induction false} MinimizedAreDerivations(
    g: Grammar, sample: string, runs: seq<(string, Outcome)>, stable: Coverage, k: nat)
    requires WellFormed(g) && IsDerivation(g, sample) && RunsCuts(g, sample, runs, stable) && k <= |runs|
    ensures IsDerivation(g, LastAccepted(sample, runs[..k], stable))
    ensures k < |runs| ==> IsDerivation(g, runs[k].0)
  {
    hide WellFormed, IsDerivation, RunsACut;
    if k == 0 {
      assert runs[..0] == [];
    } else {
      MinimizedAreDerivations(g, sample, runs, stable, k - 1);
      assert runs[..k][..k - 1] == runs[..k - 1];
    }
    if k < |runs| {
      CutIsDerivation(g, LastAccepted(sample, runs[..k], stable), runs[k].0);
    }
  }

  /** A mutation of the remembered sample number `pick`. */
  method MutateRemembered(mutator: GrammarMutator, prng: PRNG, pick: nat) returns (sample: string)
    requires mutator.Valid() && prng.Valid()
    modifies mutator, prng`next
    ensures mutator.Valid() && prng.Valid()
    ensures |sample| < SIZE_LIMIT ==> IsDerivation(mutator.grammar, sample) && Readable(mutator.grammar, sample)
  {
    hide Derives, DecodeSample, EncodeSample, WellFormed, IdConsistent, TreePool.Valid, Readable, Generated, Rewritten;
    hide GrammarMutator.IsCurrent;
    ghost var t, edits, log;
    mutator.InitRound(mutator.pool.trees[pick % |mutator.pool.trees|]);
    sample, t, edits, log := mutator.Mutate(prng);
    if |sample| < SIZE_LIMIT {
      DerivationReadBack(mutator.grammar, ROOT, t);
    }
  }

  /** A sample with new coverage is minimized and remembered. */
  method RememberMinimized(mutator: GrammarMutator, minimizer: GrammarMinimizer, target: Target, sample: string,
                           newStable: Coverage)
      returns (result: string)
    requires mutator.Valid() && minimizer.grammar == mutator.grammar
    requires IsDerivation(mutator.grammar, sample) && Readable(mutator.grammar, sample)
    modifies mutator.pool, target`next, target`log
    ensures mutator.Valid() && Remembers(mutator.grammar, mutator.pool.shapes, old(mutator.pool.shapes), [result])
    ensures IsDerivation(mutator.grammar, result)
    ensures RunsDerivations(mutator.grammar, target.log, old(target.log))
  {
    hide Derives, DecodeSample, WellFormed, IdConsistent, TreePool.Valid, TreePool.InMemory, Readable;
    hide RunsCuts, LastAccepted, LeavesAsMuch, InStep, RunsInOrder, RunsDerivations, Erase;
    ValidGrammarOf(mutator);
    assert allocated(IdSet(mutator.pool.shapes));
    result := MinimizeSample(minimizer, target, sample, newStable);
    assert mutator.Valid();
    MinimizerRuns(mutator.grammar, sample, target.log, old(target.log), newStable);
    ghost var donors := mutator.pool.shapes;
    var tree := mutator.CreateSampleContext(result);
    assert |mutator.pool.shapes| == |donors| + 1;
  }

  lemma ValidGrammarOf(mutator: GrammarMutator)
    requires mutator.Valid()
    ensures WellFormed(mutator.grammar) && mutator.pool.InMemory()
    ensures |mutator.pool.trees| == |mutator.pool.shapes|
  {
  }

  /** One round on the remembered sample number `pick`: a mutation of it is tried, that is run
      unless it is too large, and what is saved, if the run is accepted, is remembered. */
  method FuzzRound(mutator: GrammarMutator, minimizer: GrammarMinimizer, fuzzer: FuzzerCoverage, tc: ThreadContext,
                   prng: PRNG, pick: nat, maxSize: nat)
      returns (ghost tried: string, ghost saved: seq<string>)
    requires mutator.Valid() && minimizer.grammar == mutator.grammar && fuzzer.Valid() && prng.Valid()
    requires maxSize < SIZE_LIMIT
    modifies mutator, mutator.pool, prng`next, fuzzer, tc`threadCoverage, tc.target
    ensures mutator.Valid() && fuzzer.Valid() && prng.Valid()
    ensures |tried| <= maxSize ==> WasRun(tried, tc.target.log, old(tc.target.log))
    ensures |tried| > maxSize ==> tc.target.log == old(tc.target.log)
    ensures |saved| == AcceptedCalls(fuzzer.calls) - AcceptedCalls(old(fuzzer.calls))
    ensures Remembers(mutator.grammar, mutator.pool.shapes, old(mutator.pool.shapes), saved)
    ensures forall s :: s in saved ==> IsDerivation(mutator.grammar, s)
    ensures RunsDerivations(mutator.grammar, tc.target.log, old(tc.target.log))
  {
    hide GrammarMutator.Valid, FuzzerCoverage.WorthReporting, Readable, IsDerivation, RunsDerivations;
    hide AcceptedCalls, Accepted, NewStable, CoverageAccounting.Known;
    NoRunsYet(mutator.grammar, tc.target.log);
    saved := [];
    var sample := MutateRemembered(mutator, prng, pick);
    tried := sample;
    if |sample| > maxSize {
      return;
    }
    assert allocated(IdSet(mutator.pool.shapes));
    var hasNewCoverage, newStable, newVariable;
    ghost var runs;
    hasNewCoverage, newStable, newVariable, runs := fuzzer.RunSample(tc, sample);
    OneSampleRuns(mutator.grammar, sample, tc.target.log, old(tc.target.log));
    ghost var ran := tc.target.log;
    if runs != [] {
      AcceptedMore(old(fuzzer.calls), fuzzer.calls[|old(fuzzer.calls)|]);
    }
    if hasNewCoverage {
      ghost var before := tc.target.log;
      var result := RememberMinimized(mutator, minimizer, tc.target, sample, newStable);
      RunsMoreDerivations(mutator.grammar, tc.target.log, before, old(tc.target.log));
      OlderRuns(mutator.grammar, tc.target.log, before);
      saved := [result];
    }
    StillWasRun(sample, tc.target.log, old(tc.target.log), ran, old(tc.target.log));
  }

  lemma OneSampleRuns(g: Grammar, sample: string, log: seq<(string, Outcome)>, before: seq<(string, Outcome)>)
    requires IsDerivation(g, sample) && RunsOf(sample, log, before) && |log| > |before|
    ensures RunsDerivations(g, log, before) && WasRun(sample, log, before) && before <= log
  {
    assert log[|before|].0 == sample;
  }

  lemma MinimizerRuns(
    g: Grammar, sample: string, log: seq<(string, Outcome)>, before: seq<(string, Outcome)>, stable: Coverage)
    requires WellFormed(g) && IsDerivation(g, sample) && before <= log
    requires RunsCuts(g, sample, log[|before|..], stable)
    ensures RunsDerivations(g, log, before)
    ensures IsDerivation(g, LastAccepted(sample, log[|before|..], stable))
  {
    hide WellFormed, IsDerivation, RunsCuts, LastAccepted;
    var runs := log[|before|..];
    forall j | |before| <= j < |log|
      ensures IsDerivation(g, log[j].0)
    {
      MinimizedAreDerivations(g, sample, runs, stable, j - |before|);
      assert runs[j - |before|] == log[j];
    }
    MinimizedAreDerivations(g, sample, runs, stable, |runs|);
    assert runs[..|runs|] == runs;
  }

  /** One round for each of `picks`, which says which of the remembered samples to mutate.
      Whatever is drawn and whatever the target does, every mutation that is not too large is
      run, every sample that is run is the encoding of a derivation, and as many are saved and
      remembered as runs are accepted, derivations all of them. */
  method FuzzRounds(mutator: GrammarMutator, minimizer: GrammarMinimizer, fuzzer: FuzzerCoverage, tc: ThreadContext,
                    prng: PRNG, picks: seq<nat>, maxSize: nat)
      returns (ghost tried: seq<string>, ghost saved: seq<string>)
    requires mutator.Valid() && minimizer.grammar == mutator.grammar && fuzzer.Valid() && prng.Valid()
    requires maxSize < SIZE_LIMIT
    modifies mutator, mutator.pool, prng`next, fuzzer, tc`threadCoverage, tc.target
    ensures mutator.Valid() && fuzzer.Valid() && prng.Valid()
    ensures |tried| == |picks|
    ensures forall t :: t in tried && |t| <= maxSize ==> WasRun(t, tc.target.log, old(tc.target.log))
    ensures |saved| == AcceptedCalls(fuzzer.calls) - AcceptedCalls(old(fuzzer.calls))
    ensures Remembers(mutator.grammar, mutator.pool.shapes, old(mutator.pool.shapes), saved)
    ensures forall s :: s in saved ==> IsDerivation(mutator.grammar, s)
    ensures RunsDerivations(mutator.grammar, tc.target.log, old(tc.target.log))
  {
    hide GrammarMutator.Valid, RunsDerivations, IsDerivation, Derives, DecodeSample, EncodeSample, FuzzerCoverage.Valid;
    hide AcceptedCalls, WasRun, Remembers;
    NoRunsYet(mutator.grammar, tc.target.log);
    NothingRemembered(mutator.grammar, mutator.pool.shapes);
    tried, saved := [], [];
    for i := 0 to |picks|
      invariant mutator.Valid() && fuzzer.Valid() && prng.Valid()
      invariant |tried| == i && old(tc.target.log) <= tc.target.log
      invariant forall t :: t in tried && |t| <= maxSize ==> WasRun(t, tc.target.log, old(tc.target.log))
      invariant |saved| == AcceptedCalls(fuzzer.calls) - AcceptedCalls(old(fuzzer.calls))
      invariant Remembers(mutator.grammar, mutator.pool.shapes, old(mutator.pool.shapes), saved)
      invariant forall s :: s in saved ==> IsDerivation(mutator.grammar, s)
      invariant RunsDerivations(mutator.grammar, tc.target.log, old(tc.target.log))
    {
      ghost var before, donors := tc.target.log, mutator.pool.shapes;
      ghost var t, more := FuzzRound(mutator, minimizer, fuzzer, tc, prng, picks[i], maxSize);
      RunsMoreDerivations(mutator.grammar, tc.target.log, before, old(tc.target.log));
      RemembersMore(mutator.grammar, mutator.pool.shapes, donors, old(mutator.pool.shapes), saved, more);
      OlderRuns(mutator.grammar, tc.target.log, before);
      StillRun(tried, maxSize, tc.target.log, before, old(tc.target.log));
      if |t| <= maxSize {
        StillWasRun(t, tc.target.log, before, tc.target.log, old(tc.target.log));
      }
      tried, saved := tried + [t], saved + more;
    }
  }

  lemma NothingRemembered(g: Grammar, donors: seq<Shape>)
    ensures Remembers(g, donors, donors, [])
  {
  }

  lemma OlderRuns(g: Grammar, log: seq<(string, Outcome)>, before: seq<(string, Outcome)>)
    requires RunsDerivations(g, log, before)
    ensures before <= log
  {
  }

  lemma StillRun(tried: seq<string>, maxSize: nat, log: seq<(string, Outcome)>, middle: seq<(string, Outcome)>,
                 before: seq<(string, Outcome)>)
    requires before <= middle <= log
    requires forall t :: t in tried && |t| <= maxSize ==> WasRun(t, middle, before)
    ensures forall t :: t in tried && |t| <= maxSize ==> WasRun(t, log, before)
  {
    forall t | t in tried && |t| <= maxSize
      ensures WasRun(t, log, before)
    {
      StillWasRun(t, log, before, middle, before);
    }
  }

  lemma NoRunsYet(g: Grammar, log: seq<(string, Outcome)>)
    ensures RunsDerivations(g, log, log)
  {
  }
}
