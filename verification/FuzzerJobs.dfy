/** Which job a thread gets, and what becomes of the samples that the server sends
    (fuzzer.cpp, SynchronizeAndGetJob and JobDone), over whole runs. */
module FuzzerJobs {
  import opened Wrappers
  import opened Scheduling
  import opened FuzzerRuns

  // ---------- Samples from the server ----------

  /** The request `ev` asks the server for samples: an update is due while fuzzing, or the
      last input has just been processed. */
  predicate AsksServer(w: World, ev: Event) {
    ev.GetJob? && w.options.server &&
    ((w.fuzzer.phase == Fuzzing && ev.surroundings.updateDue)
     || (w.fuzzer.phase == InputSampleProcessing && w.fuzzer.inputFiles == [] && w.fuzzer.samplesPending == 0
         && !w.options.skipInitialServerSync))
  }

  function Arriving(w: World, ev: Event): seq<string> {
    if AsksServer(w, ev) then ev.surroundings.updates else []
  }

  /** All samples that the server sent in a run, in order. */
  function Arrived(w: World, es: seq<Event>): seq<string>
    requires Runs(w, es)
    decreases |es|
  {
    if es == [] then [] else Arriving(w, es[0]) + Arrived(Step(w, es[0]), es[1..])
  }

  /** The sample from the server that the request `ev` hands to its thread, if it does. */
  function Handing(w: World, ev: Event): seq<string>
    requires Enabled(w, ev)
  {
    match Step(w, ev).threads[ev.thread].held
    case Processes(phase, sample) => if ev.GetJob? && phase == ServerSampleProcessing then [sample] else []
    case _ => []
  }

  /** All samples from the server that were handed out in a run, in order. */
  function HandedOut(w: World, es: seq<Event>): seq<string>
    requires Runs(w, es)
    decreases |es|
  {
    if es == [] then [] else Handing(w, es[0]) + HandedOut(Step(w, es[0]), es[1..])
  }

  lemma SettledServer(w: World, ev: Event)
    requires Phased(w) && Enabled(w, ev) && ev.GetJob?
    ensures Settled(w.options, w.fuzzer, ev.surroundings).value.serverSamples
            == w.fuzzer.serverSamples + Arriving(w, ev)
  {
    assert w.fuzzer.serverSamples + [] == w.fuzzer.serverSamples;
  }

  /** One step hands out the first of the samples that wait or arrive, or none. */
  lemma StepServes(w: World, ev: Event)
    requires Phased(w) && Enabled(w, ev)
    ensures w.fuzzer.serverSamples + Arriving(w, ev) == Handing(w, ev) + Step(w, ev).fuzzer.serverSamples
  {
    if ev.GetJob? {
      SettledServer(w, ev);
      TakesFirst(w, ev);
    } else {
      ServesNone(w, ev);
      assert w.fuzzer.serverSamples + [] == [] + w.fuzzer.serverSamples;
    }
    hide Step, Handing, Arriving, Settled, Phased, Enabled;
  }

  lemma ServesNone(w: World, ev: Event)
    requires Enabled(w, ev) && !ev.GetJob?
    ensures Step(w, ev).fuzzer.serverSamples == w.fuzzer.serverSamples && Handing(w, ev) == [] && Arriving(w, ev) == []
  {
    hide Settled, NextJob, MutationTried;
  }

  lemma TakesFirst(w: World, ev: Event)
    requires Enabled(w, ev) && ev.GetJob?
    ensures Handing(w, ev) + Step(w, ev).fuzzer.serverSamples
            == Settled(w.options, w.fuzzer, ev.surroundings).value.serverSamples
  {
    var settled := Settled(w.options, w.fuzzer, ev.surroundings).value;
    JobTakes(w.options, settled, ev.surroundings, ev.top);
    hide Settled, NextJob;
  }

  lemma JobTakes(o: Options, f: FuzzerState, s: Surroundings, top: nat)
    ensures var (after, job) := NextJob(o, f, s, top);
            && after.phase == f.phase
            && f.serverSamples == (if f.phase == ServerSampleProcessing && job.Process? then [job.sample] else [])
                                  + after.serverSamples
  {
    assert [] + f.serverSamples == f.serverSamples;
    if f.serverSamples != [] {
      assert [f.serverSamples[0]] + f.serverSamples[1..] == f.serverSamples;
    }
  }

  /** Every sample from the server is handed out once, in the order of arrival. */
  lemma {:induction false} ServesInOrder(w: World, es: seq<Event>)
    requires Inv(w) && Runs(w, es)
    ensures w.fuzzer.serverSamples + Arrived(w, es) == HandedOut(w, es) + After(w, es).fuzzer.serverSamples
    decreases |es|
  {
    if es == [] {
      assert w.fuzzer.serverSamples + [] == [] + w.fuzzer.serverSamples;
    } else {
      var next := Step(w, es[0]);
      StepKeeps(w, es[0]);
      StepServes(w, es[0]);
      ServesInOrder(next, es[1..]);
      var a, b, c, d := w.fuzzer.serverSamples, Arriving(w, es[0]), Handing(w, es[0]), next.fuzzer.serverSamples;
      Unfolds(w, es);
      hide *;
      Regrouped(a, b, Arrived(next, es[1..]), c, d, HandedOut(next, es[1..]), After(next, es[1..]).fuzzer.serverSamples);
    }
  }

  lemma Unfolds(w: World, es: seq<Event>)
    requires Runs(w, es) && es != []
    ensures Enabled(w, es[0]) && Runs(Step(w, es[0]), es[1..])
    ensures After(w, es) == After(Step(w, es[0]), es[1..])
    ensures Arrived(w, es) == Arriving(w, es[0]) + Arrived(Step(w, es[0]), es[1..])
    ensures HandedOut(w, es) == Handing(w, es[0]) + HandedOut(Step(w, es[0]), es[1..])
  {
  }

  lemma Regrouped<T>(a: seq<T>, b: seq<T>, b': seq<T>, c: seq<T>, d: seq<T>, c': seq<T>, d': seq<T>)
    requires a + b == c + d && d + b' == c' + d'
    ensures a + (b + b') == (c + c') + d'
  {
    assert a + (b + b') == (a + b) + b' == c + (d + b') == c + (c' + d');
  }

  /** In a run from the start the samples handed out, followed by those that wait, are all
      that arrived; while fuzzing none waits. */
  lemma ServerSamplesHandedOut(o: Options, inputs: seq<string>, n: nat, es: seq<Event>)
    requires Runs(Start(o, inputs, n), es)
    ensures var w := Start(o, inputs, n);
            && Arrived(w, es) == HandedOut(w, es) + After(w, es).fuzzer.serverSamples
            && (After(w, es).fuzzer.phase == Fuzzing ==> Arrived(w, es) == HandedOut(w, es))
  {
    var w := Start(o, inputs, n);
    StartKeeps(o, inputs, n);
    ServesInOrder(w, es);
    RunKeeps(w, es);
    assert [] + Arrived(w, es) == Arrived(w, es) && HandedOut(w, es) + [] == HandedOut(w, es);
  }

  // ---------- The choice of a job ----------

  /** All inputs are processed. */
  predicate InputsDone(f: FuzzerState) {
    f.phase != InputSampleProcessing || (f.inputFiles == [] && f.samplesPending == 0)
  }

  /** The fuzzer has no sample to fuzz, or it is still generating its first ones. */
  predicate MustGenerate(f: FuzzerState) {
    f.numSamples == 0 || (f.phase == GeneratingSamples && |f.queue| < MIN_SAMPLES_TO_GENERATE)
  }

  /** Some sample of the current phase is still being processed. */
  predicate MustWait(f: FuzzerState) {
    f.samplesPending != 0
    && (f.phase == ServerSampleProcessing || (f.phase == GeneratingSamples && |f.queue| >= MIN_SAMPLES_TO_GENERATE))
  }

  /** An entry of the queue such that none has a higher priority, and none of the same
      priority a newer sample. */
  ghost predicate IsBest(f: FuzzerState, e: nat)
    requires InRange(f)
  {
    && e in f.queue
    && forall d :: d in f.queue ==>
         && f.entries[d].priority <= f.entries[e].priority
         && (f.entries[d].priority == f.entries[e].priority ==> f.entries[d].sampleIndex <= f.entries[e].sampleIndex)
  }

  /** The job that a request gets: the next input; a sample from the server, waiting or just
      arriving; nothing until the samples before are done with; a generated sample if there
      are too few; then the best entry of the queue.  And the thread then knows all samples. */
  lemma JobIs(w: World, ev: Event)
    requires Inv(w) && Enabled(w, ev) && ev.GetJob?
    ensures var f, t := w.fuzzer, Step(w, ev).threads[ev.thread];
            var samples := f.serverSamples + Arriving(w, ev);
            && t.local == f.allSamples
            && if !InputsDone(f) then
                 t.held == if f.inputFiles == [] then Waits else Processes(InputSampleProcessing, f.inputFiles[0])
               else if samples != [] then t.held == Processes(ServerSampleProcessing, samples[0])
               else if MustWait(f) then t.held == Waits
               else if MustGenerate(f) then t.held == Processes(GeneratingSamples, ev.surroundings.generated)
               else if w.options.dryRun || f.queue == {} then t.held == Waits
               else t.held == Fuzzes(ev.top, 0) && IsBest(f, ev.top)
  {
    var f := w.fuzzer;
    SettlingKeeps(w, ev.surroundings);
    SettledServer(w, ev);
    NothingToFuzz(w);
    KnowsAll(w, ev);
    SettledPhase(w, ev);
    hide Inv, Settled;
  }

  lemma KnowsAll(w: World, ev: Event)
    requires LocalsArePrefixes(w) && Enabled(w, ev) && ev.GetJob?
    ensures Step(w, ev).threads[ev.thread].local == w.fuzzer.allSamples
  {
    var t := w.threads[ev.thread];
    assert t in w.threads;
    assert t.local + w.fuzzer.allSamples[|t.local|..] == w.fuzzer.allSamples;
    hide Settled, NextJob;
  }

  lemma NothingToFuzz(w: World)
    requires Conserved(w) && Counted(w)
    ensures InRange(w.fuzzer) && w.fuzzer.samplesPending >= 0
    ensures w.fuzzer.numSamples == 0 ==> w.fuzzer.queue == {}
  {
  }

  /** The phase in which the job is chosen. */
  lemma SettledPhase(w: World, ev: Event)
    requires Phased(w) && Enabled(w, ev) && ev.GetJob? && w.fuzzer.samplesPending >= 0
    requires w.fuzzer.numSamples == 0 ==> w.fuzzer.queue == {}
    ensures var f := w.fuzzer;
            Settled(w.options, f, ev.surroundings).value.phase
            == if !InputsDone(f) then InputSampleProcessing
               else if f.serverSamples + Arriving(w, ev) != [] || (f.phase == ServerSampleProcessing && f.samplesPending != 0)
                    then ServerSampleProcessing
               else if MustGenerate(f) || MustWait(f) then GeneratingSamples
               else Fuzzing
  {
    var f := w.fuzzer;
    if f.serverSamples + Arriving(w, ev) == [] {
      assert f.serverSamples == [] && Arriving(w, ev) == [];
    }
  }

  // ---------- Discarded entries ----------

  /** A job on entry `e` ends with the entry given up. */
  predicate Discards(w: World, ev: Event, e: nat)
    requires ev.thread < |w.threads|
  {
    ev.Done? && ev.discard && Has(w.threads[ev.thread], Holding(e))
  }

  ghost predicate DiscardedIn(w: World, es: seq<Event>, e: nat)
    requires Runs(w, es)
    decreases |es|
  {
    es != [] && (Discards(w, es[0], e) || DiscardedIn(Step(w, es[0]), es[1..], e))
  }

  lemma StepDiscards(w: World, ev: Event, e: nat)
    requires Inv(w) && Enabled(w, ev)
    ensures var f, f' := w.fuzzer, Step(w, ev).fuzzer;
            && |f.entries| <= |f'.entries|
            && (e < |f'.entries| ==>
                  (f'.entries[e].discarded <==> (e < |f.entries| && f.entries[e].discarded) || Discards(w, ev, e)))
  {
    assert w.threads[ev.thread] in w.threads;
    if ev.GetJob? {
      SettlingKeeps(w, ev.surroundings);
    }
    hide Phased, Counted, InOrder, LocalsArePrefixes, Capped, Settled;
  }

  /** An entry is discarded exactly when a job on it ended so; every other one comes back to
      the queue with the end of its job (StepConserves). */
  lemma {:induction false} DiscardedIff(w: World, es: seq<Event>, e: nat)
    requires Inv(w) && Runs(w, es) && e < |After(w, es).fuzzer.entries|
    ensures After(w, es).fuzzer.entries[e].discarded
            <==> (e < |w.fuzzer.entries| && w.fuzzer.entries[e].discarded) || DiscardedIn(w, es, e)
    decreases |es|
  {
    if es != [] {
      StepKeeps(w, es[0]);
      StepDiscards(w, es[0], e);
      EntriesStay(Step(w, es[0]), es[1..]);
      hide Inv, Enabled, Step, Discards;
      DiscardedIff(Step(w, es[0]), es[1..], e);
    }
  }

  lemma {:induction false} EntriesStay(w: World, es: seq<Event>)
    requires Inv(w) && Runs(w, es)
    ensures |w.fuzzer.entries| <= |After(w, es).fuzzer.entries|
    decreases |es|
  {
    if es != [] {
      StepKeeps(w, es[0]);
      StepDiscards(w, es[0], 0);
      hide Inv, Enabled, Step, Discards;
      EntriesStay(Step(w, es[0]), es[1..]);
    }
  }
}
