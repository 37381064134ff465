/** Whole runs of the fuzzer's threads over the job queue (fuzzer.cpp). */
module FuzzerRuns {
  import opened Wrappers
  import opened Scheduling

  /** What a thread is at: it remembers the phase its sample came from, and how many runs
      its entry has had in this job. */
  datatype Held = Idle | Waits | Processes(phase: Phase, sample: string) | Fuzzes(entry: nat, runs: nat)

  /** A thread is saving between the two sections of SaveSample. */
  datatype Thread = Thread(held: Held, saving: bool, local: seq<string>)

  /** The fuzzer and its threads, with the input files it was started on, those handed out
      so far, and whether any fuzzing job has been handed out. */
  datatype World = World(
    options: Options, fuzzer: FuzzerState, threads: seq<Thread>,
    inputs: seq<string>, handedOut: seq<string>, fuzzed: bool)

  datatype Event =
    | GetJob(thread: nat, surroundings: Surroundings, top: nat)
    | Try(thread: nat, mutation: Mutation)
    | CountSample(thread: nat)
    | Enqueue(thread: nat, sample: string, sampleIndex: int)
    | Done(thread: nat, discard: bool)

  function Start(o: Options, inputs: seq<string>, n: nat): World {
    World(o, FuzzerState(InputSampleProcessing, inputs, [], 0, [], {}, [], 0),
          seq(n, _ => Thread(Idle, false, [])), inputs, [], false)
  }

  ghost predicate Enabled(w: World, e: Event) {
    && e.thread < |w.threads|
    && var t := w.threads[e.thread];
       match e
       case GetJob(_, s, top) =>
         && t.held.Idle? && !t.saving && Settled(w.options, w.fuzzer, s).Some?
         && var f := Settled(w.options, w.fuzzer, s).value;
            InRange(f) && (NextJob(w.options, f, s, top).1.Fuzz? ==> IsTop(f, top))
       case Try(_, _) => t.held.Fuzzes? && t.held.entry < |w.fuzzer.entries| && !t.saving
       case CountSample(_) => (t.held.Processes? || t.held.Fuzzes?) && !t.saving
       case Enqueue(_, _, _) => t.saving
       case Done(_, _) => !t.held.Idle? && (t.held.Fuzzes? ==> t.held.entry < |w.fuzzer.entries|) && !t.saving
  }

  function JobOf(h: Held): Job {
    match h
    case Processes(_, sample) => Process(sample)
    case Fuzzes(e, _) => Fuzz(e)
    case _ => Wait
  }

  function HeldFor(job: Job, phase: Phase): Held {
    match job
    case Wait => Waits
    case Process(sample) => Processes(phase, sample)
    case Fuzz(e) => Fuzzes(e, 0)
  }

  function Step(w: World, e: Event): World
    requires Enabled(w, e)
  {
    var t := w.threads[e.thread];
    match e
    case GetJob(_, s, top) =>
      var settled := Settled(w.options, w.fuzzer, s).value;
      var (f, job) := NextJob(w.options, settled, s, top);
      w.(fuzzer := f,
         threads := w.threads[e.thread := Thread(HeldFor(job, f.phase), false, Synced(t.local, w.fuzzer.allSamples))],
         handedOut := if f.phase == InputSampleProcessing && job.Process? then w.handedOut + [job.sample] else w.handedOut,
         fuzzed := w.fuzzed || job.Fuzz?)
    case Try(_, m) =>
      var i := t.held.entry;
      w.(fuzzer := w.fuzzer.(entries := w.fuzzer.entries[i := MutationTried(w.fuzzer.entries[i], m)]),
         threads := w.threads[e.thread := t.(held := t.held.(runs := t.held.runs + if m.Ran? then 1 else 0))])
    case CountSample(_) =>
      w.(fuzzer := w.fuzzer.(numSamples := w.fuzzer.numSamples + 1),
         threads := w.threads[e.thread := t.(saving := true)])
    case Enqueue(_, sample, sampleIndex) =>
      w.(fuzzer := AfterEnqueue(w.fuzzer, sample, sampleIndex),
         threads := w.threads[e.thread := t.(saving := false)])
    case Done(_, discard) =>
      w.(fuzzer := AfterJob(w.fuzzer, JobOf(t.held), discard),
         threads := w.threads[e.thread := t.(held := Idle)])
  }

  /** Every event happens in a state that allows it. */
  ghost predicate Runs(w: World, es: seq<Event>)
    decreases |es|
  {
    es == [] || (Enabled(w, es[0]) && Runs(Step(w, es[0]), es[1..]))
  }

  function After(w: World, es: seq<Event>): World
    requires Runs(w, es)
    decreases |es|
  {
    if es == [] then w else After(Step(w, es[0]), es[1..])
  }

  // ---------- Counting threads ----------

  datatype Role = Processing | Saving | Holding(entry: nat) | JustHolding(entry: nat)

  predicate Has(t: Thread, r: Role) {
    match r
    case Processing => t.held.Processes?
    case Saving => t.saving
    case Holding(e) => t.held.Fuzzes? && t.held.entry == e
    case JustHolding(e) => t.held == Fuzzes(e, 0)
  }

  function Count(ts: seq<Thread>, r: Role): nat {
    if ts == [] then 0 else Count(ts[1..], r) + if Has(ts[0], r) then 1 else 0
  }

  lemma {:induction false} CountChanges(ts: seq<Thread>, i: nat, t: Thread, r: Role)
    requires i < |ts|
    ensures Count(ts[i := t], r)
            == Count(ts, r) - (if Has(ts[i], r) then 1 else 0) + (if Has(t, r) then 1 else 0)
  {
    if i == 0 {
      assert ts[i := t][1..] == ts[1..];
    } else {
      CountChanges(ts[1..], i - 1, t, r);
      assert ts[i := t][1..] == ts[1..][i - 1 := t];
    }
  }

  lemma {:induction false} CountZero(ts: seq<Thread>, r: Role)
    ensures Count(ts, r) == 0 <==> forall i :: 0 <= i < |ts| ==> !Has(ts[i], r)
  {
    if ts != [] {
      CountZero(ts[1..], r);
      assert forall i :: 1 <= i < |ts| ==> ts[i] == ts[1..][i - 1];
      if Count(ts, r) == 0 {
        forall i | 0 <= i < |ts|
          ensures !Has(ts[i], r)
        {
          assert i > 0 ==> !Has(ts[1..][i - 1], r);
        }
      }
    }
  }

  // ---------- What every step keeps ----------

  /** In how many of these an entry is: the queue, the discarded ones, the jobs of threads. */
  function Places(w: World, e: nat): nat
    requires e < |w.fuzzer.entries|
  {
    (if e in w.fuzzer.queue then 1 else 0) + (if w.fuzzer.entries[e].discarded then 1 else 0)
    + Count(w.threads, Holding(e))
  }

  /** Each entry is in exactly one place. */
  ghost predicate Conserved(w: World) {
    && InRange(w.fuzzer)
    && (forall t :: t in w.threads && t.held.Fuzzes? ==> t.held.entry < |w.fuzzer.entries|)
    && (forall e :: 0 <= e < |w.fuzzer.entries| ==> Places(w, e) == 1)
  }

  ghost predicate Counted(w: World) {
    && w.fuzzer.samplesPending == Count(w.threads, Processing)
    && w.fuzzer.numSamples == |w.fuzzer.allSamples| + Count(w.threads, Saving)
    && |w.fuzzer.allSamples| == |w.fuzzer.entries|
  }

  /** While fuzzing no sample is pending and none waits to be processed; inputs come first. */
  ghost predicate Phased(w: World) {
    var f := w.fuzzer;
    && (f.phase == Fuzzing ==> f.samplesPending == 0)
    && (f.phase == Fuzzing || f.phase == GeneratingSamples ==> f.serverSamples == [])
    && (if f.phase == InputSampleProcessing then f.serverSamples == [] && !w.fuzzed
        else f.inputFiles == [] && forall t :: t in w.threads ==> FromLater(t))
  }

  predicate FromLater(t: Thread) {
    t.held.Processes? ==> t.held.phase != InputSampleProcessing
  }

  /** Inputs are handed out in order, each one once. */
  ghost predicate InOrder(w: World) {
    w.handedOut + w.fuzzer.inputFiles == w.inputs
  }

  ghost predicate LocalsArePrefixes(w: World) {
    forall t :: t in w.threads ==> t.local <= w.fuzzer.allSamples
  }

  /** No priority is above that of a new entry. */
  ghost predicate Capped(w: World) {
    forall e :: e in w.fuzzer.entries ==> e.priority <= NewEntry(e.sampleIndex).priority
  }

  ghost predicate Inv(w: World) {
    Conserved(w) && Counted(w) && Phased(w) && InOrder(w) && LocalsArePrefixes(w) && Capped(w)
  }

  lemma StartKeeps(o: Options, inputs: seq<string>, n: nat)
    ensures Inv(Start(o, inputs, n))
  {
    var w := Start(o, inputs, n);
    CountZero(w.threads, Processing);
    CountZero(w.threads, Saving);
  }

  /** Settling changes the phase and the samples from the server only. */
  lemma SettlingKeeps(w: World, s: Surroundings)
    requires Phased(w) && Settled(w.options, w.fuzzer, s).Some?
    ensures var f, f' := w.fuzzer, Settled(w.options, w.fuzzer, s).value;
            && f' == f.(phase := f'.phase, serverSamples := f'.serverSamples)
            && (f'.phase == Fuzzing ==> f.samplesPending == 0)
            && (f'.phase == Fuzzing || f'.phase == GeneratingSamples ==> f'.serverSamples == [])
            && (f'.phase == InputSampleProcessing ==> f.phase == InputSampleProcessing && f'.serverSamples == [])
            && (f'.phase != InputSampleProcessing ==>
                  f.inputFiles == [] && (f.phase == InputSampleProcessing ==> f.samplesPending == 0))
  {
  }

  lemma StepPlaces(w: World, ev: Event, e: nat)
    requires Conserved(w) && Phased(w) && Enabled(w, ev) && e < |Step(w, ev).fuzzer.entries|
    ensures Places(Step(w, ev), e) == 1
  {
    var w', i := Step(w, ev), ev.thread;
    assert w.threads[i] in w.threads;
    if ev.GetJob? {
      SettlingKeeps(w, ev.surroundings);
    }
    var t' := w'.threads[i];
    assert w'.threads == w.threads[i := t'];
    hide Phased, Settled;
    CountChanges(w.threads, i, t', Holding(e));
    if e < |w.fuzzer.entries| {
      assert Places(w, e) == 1;
    } else {
      CountZero(w.threads, Holding(e));
    }
  }

  lemma StepConserves(w: World, ev: Event)
    requires Conserved(w) && Phased(w) && Enabled(w, ev)
    ensures Conserved(Step(w, ev))
  {
    var w', i := Step(w, ev), ev.thread;
    forall e | 0 <= e < |w'.fuzzer.entries|
      ensures Places(w', e) == 1
    {
      hide *;
      StepPlaces(w, ev, e);
    }
    hide Places, Count;
    if ev.GetJob? {
      SettlingKeeps(w, ev.surroundings);
    }
    hide Phased, Settled;
    assert w.threads[i] in w.threads;
    assert forall u :: u in w'.threads ==> u == w'.threads[i] || u in w.threads;
  }

  lemma StepCounts(w: World, ev: Event)
    requires Counted(w) && Phased(w) && Enabled(w, ev)
    ensures Counted(Step(w, ev))
  {
    var w', i := Step(w, ev), ev.thread;
    var t' := w'.threads[i];
    if ev.GetJob? {
      SettlingKeeps(w, ev.surroundings);
    }
    assert w'.threads == w.threads[i := t'];
    CountChanges(w.threads, i, t', Processing);
    CountChanges(w.threads, i, t', Saving);
  }

  lemma StepPhases(w: World, ev: Event)
    requires Counted(w) && Phased(w) && Enabled(w, ev)
    ensures Phased(Step(w, ev))
  {
    var w', i := Step(w, ev), ev.thread;
    var t' := w'.threads[i];
    if ev.GetJob? {
      SettlingKeeps(w, ev.surroundings);
      CountZero(w.threads, Processing);
    }
    if ev.Done? && w.threads[i].held.Processes? {
      CountZero(w.threads, Processing);
    }
    assert forall u :: u in w'.threads ==> u == t' || u in w.threads;
    assert w.threads[i] in w.threads;
  }

  lemma StepKeepsOrder(w: World, ev: Event)
    requires InOrder(w) && Phased(w) && Enabled(w, ev)
    ensures InOrder(Step(w, ev))
  {
    if ev.GetJob? {
      SettlingKeeps(w, ev.surroundings);
    }
  }

  lemma StepKeepsPrefixes(w: World, ev: Event)
    requires LocalsArePrefixes(w) && Phased(w) && Enabled(w, ev)
    ensures LocalsArePrefixes(Step(w, ev))
  {
    var w', i := Step(w, ev), ev.thread;
    var t' := w'.threads[i];
    assert w.threads[i] in w.threads;
    if ev.GetJob? {
      SettlingKeeps(w, ev.surroundings);
      assert t'.local <= w.fuzzer.allSamples;
    }
    assert w.fuzzer.allSamples <= w'.fuzzer.allSamples;
    assert forall u :: u in w'.threads ==> u == t' || u in w.threads;
  }

  lemma StepKeepsCap(w: World, ev: Event)
    requires Capped(w) && Phased(w) && Enabled(w, ev)
    ensures Capped(Step(w, ev))
  {
    var before, after := w.fuzzer.entries, Step(w, ev).fuzzer.entries;
    if ev.GetJob? {
      SettlingKeeps(w, ev.surroundings);
    }
    hide Phased, Settled;
    forall i | 0 <= i < |after|
      ensures after[i].priority <= 0
    {
      assert i < |before| ==> before[i] in before && before[i].priority <= 0;
    }
  }

  /** Every step of any thread keeps the invariant. */
  lemma StepKeeps(w: World, ev: Event)
    requires Inv(w) && Enabled(w, ev)
    ensures Inv(Step(w, ev))
  {
    hide Conserved, Counted, Phased, InOrder, LocalsArePrefixes, Capped, Step, Enabled;
    StepConserves(w, ev);
    StepCounts(w, ev);
    StepPhases(w, ev);
    StepKeepsOrder(w, ev);
    StepKeepsPrefixes(w, ev);
    StepKeepsCap(w, ev);
  }

  lemma {:induction false} RunKeeps(w: World, es: seq<Event>)
    requires Inv(w) && Runs(w, es)
    ensures Inv(After(w, es))
    decreases |es|
  {
    if es != [] {
      hide Inv;
      StepKeeps(w, es[0]);
      RunKeeps(Step(w, es[0]), es[1..]);
    }
  }

  // ---------- What holds in every reachable state ----------

  /** Fuzzing starts only when all samples of the earlier phases are done with. */
  lemma FuzzingIsQuiet(o: Options, inputs: seq<string>, n: nat, es: seq<Event>)
    requires Runs(Start(o, inputs, n), es)
    ensures var w := After(Start(o, inputs, n), es);
            w.fuzzer.phase == Fuzzing ==>
              && w.fuzzer.samplesPending == 0 && w.fuzzer.inputFiles == [] && w.fuzzer.serverSamples == []
              && w.handedOut == inputs
              && forall i :: 0 <= i < |w.threads| ==> !w.threads[i].held.Processes?
  {
    StartKeeps(o, inputs, n);
    RunKeeps(Start(o, inputs, n), es);
    var w := After(Start(o, inputs, n), es);
    CountZero(w.threads, Processing);
    assert forall i :: 0 <= i < |w.threads| ==> (w.threads[i].held.Processes? <==> Has(w.threads[i], Processing));
    SameInputs(Start(o, inputs, n), es);
  }

  lemma {:induction false} SameInputs(w: World, es: seq<Event>)
    requires Runs(w, es)
    ensures After(w, es).inputs == w.inputs
    decreases |es|
  {
    if es != [] {
      SameInputs(Step(w, es[0]), es[1..]);
    }
  }

  /** A fuzzing job is handed out only after every input was, and when no thread is at one. */
  lemma InputsFirst(w: World, ev: Event)
    requires Inv(w) && Enabled(w, ev) && Step(w, ev).fuzzed
    ensures Step(w, ev).handedOut == w.inputs
    ensures forall t :: t in Step(w, ev).threads ==> FromLater(t)
  {
    StepKeeps(w, ev);
    var w' := Step(w, ev);
    assert w'.handedOut + [] == w'.handedOut;
  }

  /** No entry is in two places: not with two threads, nor with a thread and in the queue. */
  lemma HeldByOne(w: World, i: nat, j: nat, e: nat)
    requires Inv(w) && i < |w.threads| && j < |w.threads|
    requires Has(w.threads[i], Holding(e)) && Has(w.threads[j], Holding(e))
    ensures i == j && e !in w.fuzzer.queue && !w.fuzzer.entries[e].discarded
  {
    assert w.threads[i] in w.threads;
    assert Places(w, e) == 1;
    var other := w.threads[i := Thread(Idle, false, [])];
    CountChanges(w.threads, i, Thread(Idle, false, []), Holding(e));
    CountZero(other, Holding(e));
    forall k | 0 <= k < |w.threads| && k != i
      ensures !Has(w.threads[k], Holding(e))
    {
      assert other[k] == w.threads[k];
    }
  }

  /** When no thread has a job, the next one to ask gets one: unless this is a dry run, or
      every entry is discarded.  Only a fuzzer that never saved a sample and cannot
      generate any ends with the fatal error. */
  lemma NextJobExists(w: World, s: Surroundings, top: nat)
    requires Inv(w) && forall t :: t in w.threads ==> t.held.Idle? && !t.saving
    ensures match Settled(w.options, w.fuzzer, s)
            case None => w.fuzzer.entries == [] && !s.canGenerate && w.fuzzer.inputFiles == [] && w.fuzzer.serverSamples == []
            case Some(f) =>
              NextJob(w.options, f, s, top).1 == Wait ==>
                w.options.dryRun || (w.fuzzer.entries != [] && forall e :: e in w.fuzzer.entries ==> e.discarded)
  {
    CountZero(w.threads, Processing);
    CountZero(w.threads, Saving);
    forall e | 0 <= e < |w.fuzzer.entries| && w.fuzzer.queue == {}
      ensures w.fuzzer.entries[e].discarded
    {
      CountZero(w.threads, Holding(e));
      assert Places(w, e) == 1;
    }
    assert forall i :: 0 <= i < |w.threads| ==> w.threads[i] in w.threads;
  }

  // ---------- Bounded scheduling ----------

  /** A step in which no run finds new coverage and no entry is added. */
  ghost predicate Quiet(ev: Event) {
    match ev
    case Try(_, m) => m.TooLarge? || !m.foundNewCoverage
    case Enqueue(_, _, _) => false
    case _ => true
  }

  /** A fuzzing job on entry `e` ends without a run. */
  predicate EndsEmpty(w: World, ev: Event, e: nat)
    requires ev.thread < |w.threads|
  {
    ev.Done? && w.threads[ev.thread].held == Fuzzes(e, 0)
  }

  predicate Picks(w: World, ev: Event, e: nat)
    requires ev.thread < |w.threads| && (ev.GetJob? ==> Settled(w.options, w.fuzzer, ev.surroundings).Some?)
  {
    ev.GetJob?
    && NextJob(w.options, Settled(w.options, w.fuzzer, ev.surroundings).value, ev.surroundings, ev.top).1 == Fuzz(e)
  }

  /** A quiet run in which `e` is not picked. */
  ghost predicate QuietWithout(w: World, es: seq<Event>, e: nat)
    requires Runs(w, es)
    decreases |es|
  {
    es != [] ==>
      Quiet(es[0]) && !Picks(w, es[0], e) && QuietWithout(Step(w, es[0]), es[1..], e)
  }

  function FuzzJobs(w: World, es: seq<Event>): nat
    requires Runs(w, es)
    decreases |es|
  {
    if es == [] then 0
    else (if Picks(w, es[0], if es[0].GetJob? then es[0].top else 0) then 1 else 0) + FuzzJobs(Step(w, es[0]), es[1..])
  }

  function EmptyJobs(w: World, es: seq<Event>): nat
    requires Runs(w, es)
    decreases |es|
  {
    if es == [] then 0
    else
      var t := w.threads[es[0].thread].held;
      (if t.Fuzzes? && EndsEmpty(w, es[0], t.entry) then 1 else 0) + EmptyJobs(Step(w, es[0]), es[1..])
  }

  /** How often entry `i` can still come before `e`: by how much its priority exceeds, plus
      one; a job that has not run yet will lower it by one. */
  function Share(w: World, e: nat, i: nat): nat
    requires e < |w.fuzzer.entries| && i < |w.fuzzer.entries|
  {
    var excess := w.fuzzer.entries[i].priority - Count(w.threads, JustHolding(i)) - w.fuzzer.entries[e].priority + 1;
    if i == e || w.fuzzer.entries[i].discarded || excess < 0 then 0 else excess
  }

  function Excess(w: World, e: nat, n: nat): nat
    requires e < |w.fuzzer.entries| && n <= |w.fuzzer.entries|
  {
    if n == 0 then 0 else Excess(w, e, n - 1) + Share(w, e, n - 1)
  }

  lemma {:induction false} JustIsHolding(ts: seq<Thread>, e: nat)
    ensures Count(ts, JustHolding(e)) <= Count(ts, Holding(e))
  {
    if ts != [] {
      JustIsHolding(ts[1..], e);
    }
  }

  /** A quiet step that does not pick `e` raises no share but that of an entry whose job
      ends without a run, and lowers that of the entry it picks. */
  lemma ShareStep(w: World, ev: Event, e: nat, i: nat)
    requires Inv(w) && Enabled(w, ev) && Quiet(ev) && !Picks(w, ev, e)
    requires e in w.fuzzer.queue && i < |w.fuzzer.entries|
    ensures e in Step(w, ev).fuzzer.queue && |Step(w, ev).fuzzer.entries| == |w.fuzzer.entries|
    ensures Share(Step(w, ev), e, i) + (if Picks(w, ev, i) then 1 else 0)
            <= Share(w, e, i) + (if EndsEmpty(w, ev, i) then 1 else 0)
  {
    WaitsOn(w, ev, e);
    if ev.GetJob? {
      ShareWhenPicked(w, ev, e, i);
    } else {
      ShareWhenHeld(w, ev, e, i);
    }
  }

  /** A waiting entry that is not picked goes on waiting as it is. */
  lemma WaitsOn(w: World, ev: Event, e: nat)
    requires Inv(w) && Enabled(w, ev) && Quiet(ev) && !Picks(w, ev, e) && e in w.fuzzer.queue
    ensures e < |w.fuzzer.entries| == |Step(w, ev).fuzzer.entries| && e in Step(w, ev).fuzzer.queue
    ensures Step(w, ev).fuzzer.entries[e] == w.fuzzer.entries[e]
  {
    assert w.threads[ev.thread] in w.threads;
    assert Places(w, e) == 1;
    CountZero(w.threads, Holding(e));
    assert !Has(w.threads[ev.thread], Holding(e));
    hide Counted, InOrder, LocalsArePrefixes;
    if ev.GetJob? {
      SettlingKeeps(w, ev.surroundings);
    }
  }

  lemma ShareWhenPicked(w: World, ev: Event, e: nat, i: nat)
    requires Inv(w) && Enabled(w, ev) && ev.GetJob? && !Picks(w, ev, e)
    requires e in w.fuzzer.queue && e < |w.fuzzer.entries| && i < |w.fuzzer.entries|
    ensures Step(w, ev).fuzzer.entries == w.fuzzer.entries
    ensures Share(Step(w, ev), e, i) + (if Picks(w, ev, i) then 1 else 0) <= Share(w, e, i)
  {
    var w', t := Step(w, ev), ev.thread;
    SettlingKeeps(w, ev.surroundings);
    assert w'.threads == w.threads[t := w'.threads[t]];
    CountChanges(w.threads, t, w'.threads[t], JustHolding(i));
    assert Places(w, i) == 1;
    JustIsHolding(w.threads, i);
    hide Phased, Counted, InOrder, LocalsArePrefixes, Settled;
    if Picks(w, ev, i) {
      assert !ComesAfter(w.fuzzer.entries[i], w.fuzzer.entries[e]);
      assert Count(w.threads, Holding(i)) == 0;
    }
  }

  lemma ShareWhenHeld(w: World, ev: Event, e: nat, i: nat)
    requires Inv(w) && Enabled(w, ev) && Quiet(ev) && !ev.GetJob?
    requires e in w.fuzzer.queue && e < |w.fuzzer.entries| == |Step(w, ev).fuzzer.entries| && i < |w.fuzzer.entries|
    requires Step(w, ev).fuzzer.entries[e] == w.fuzzer.entries[e]
    ensures Share(Step(w, ev), e, i) <= Share(w, e, i) + (if EndsEmpty(w, ev, i) then 1 else 0)
  {
    var w', t := Step(w, ev), ev.thread;
    assert w'.threads == w.threads[t := w'.threads[t]];
    CountChanges(w.threads, t, w'.threads[t], JustHolding(i));
    hide Inv, Settled, NextJob;
  }

  lemma {:induction false} ExcessStep(w: World, ev: Event, e: nat, n: nat)
    requires Inv(w) && Enabled(w, ev) && Quiet(ev) && !Picks(w, ev, e)
    requires e in w.fuzzer.queue && n <= |w.fuzzer.entries|
    ensures e in Step(w, ev).fuzzer.queue && |Step(w, ev).fuzzer.entries| == |w.fuzzer.entries|
    ensures var held := w.threads[ev.thread].held;
            Excess(Step(w, ev), e, n) + (if ev.GetJob? && ev.top < n && Picks(w, ev, ev.top) then 1 else 0)
            <= Excess(w, e, n) + (if held.Fuzzes? && held.entry < n && EndsEmpty(w, ev, held.entry) then 1 else 0)
  {
    WaitsOn(w, ev, e);
    if n > 0 {
      ShareStep(w, ev, e, n - 1);
      NotBoth(w, ev, n - 1);
      hide *;
      ExcessStep(w, ev, e, n - 1);
      ExcessSum(w, e, n);
      ExcessSum(Step(w, ev), e, n);
    }
  }

  lemma ExcessSum(w: World, e: nat, n: nat)
    requires e < |w.fuzzer.entries| && 0 < n <= |w.fuzzer.entries|
    ensures Excess(w, e, n) == Excess(w, e, n - 1) + Share(w, e, n - 1)
  {
  }

  lemma NotBoth(w: World, ev: Event, i: nat)
    requires Enabled(w, ev)
    ensures Picks(w, ev, i) ==> ev.GetJob? && ev.top == i
    ensures EndsEmpty(w, ev, i) ==> w.threads[ev.thread].held == Fuzzes(i, 0)
  {
  }

  /** An entry in the queue is picked within a bounded number of fuzzing jobs: as long as it
      is not, there are no more of them than the excess of the others, and one more for each
      job that ended without a run. */
  lemma {:induction false} BoundedScheduling(w: World, es: seq<Event>, e: nat)
    requires Inv(w) && Runs(w, es) && QuietWithout(w, es, e) && e in w.fuzzer.queue
    ensures FuzzJobs(w, es) <= Excess(w, e, |w.fuzzer.entries|) + EmptyJobs(w, es)
    decreases |es|
  {
    if es != [] {
      ExcessStep(w, es[0], e, |w.fuzzer.entries|);
      StepKeeps(w, es[0]);
      PicksEntries(w, es[0]);
      hide Inv, Enabled, Step, Quiet, Excess, Picks, EndsEmpty;
      BoundedScheduling(Step(w, es[0]), es[1..], e);
    }
  }

  lemma PicksEntries(w: World, ev: Event)
    requires Inv(w) && Enabled(w, ev)
    ensures ev.GetJob? && Picks(w, ev, ev.top) ==> ev.top < |w.fuzzer.entries|
  {
    if ev.GetJob? {
      SettlingKeeps(w, ev.surroundings);
    }
  }

  // ---------- Starvation ----------

  const NOTHING := Surroundings(false, [], false, "")

  /** Thread `t` takes entry `d` and gives it back without a run, `n` times. */
  function EmptyRounds(t: nat, d: nat, n: nat): seq<Event> {
    if n == 0 then [] else [GetJob(t, NOTHING, d), Done(t, false)] + EmptyRounds(t, d, n - 1)
  }

  /** A thread is free, `e` waits, and another entry is on top. */
  ghost predicate CanStarve(w: World, t: nat, e: nat, d: nat) {
    && Inv(w) && !w.options.dryRun && w.fuzzer.phase == Fuzzing
    && t < |w.threads| && w.threads[t].held.Idle? && !w.threads[t].saving
    && e in w.fuzzer.queue && e != d && IsTop(w.fuzzer, d)
  }

  /** The empty jobs that the bound allows for do happen: from every such state the fuzzer
      can go on for ever without picking `e`. */
  lemma {:induction false} Starves(w: World, t: nat, e: nat, d: nat, n: nat)
    requires CanStarve(w, t, e, d)
    ensures Runs(w, EmptyRounds(t, d, n)) && QuietWithout(w, EmptyRounds(t, d, n), e)
    ensures FuzzJobs(w, EmptyRounds(t, d, n)) == EmptyJobs(w, EmptyRounds(t, d, n)) == n
    ensures CanStarve(After(w, EmptyRounds(t, d, n)), t, e, d)
    decreases n
  {
    hide CanStarve, Enabled, Step, NextJob, Settled, Picks, EndsEmpty, Quiet, FuzzJobs, EmptyJobs, Runs;
    hide QuietWithout, After;
    if n == 0 {
      NoSteps(w, e);
    } else {
      var get, done, rest := GetJob(t, NOTHING, d), Done(t, false), EmptyRounds(t, d, n - 1);
      EmptyRound(w, t, e, d);
      Starves(Step(Step(w, get), done), t, e, d, n - 1);
      TwoSteps(w, get, done, rest, e);
    }
  }

  lemma NoSteps(w: World, e: nat)
    ensures Runs(w, []) && After(w, []) == w && FuzzJobs(w, []) == 0 && EmptyJobs(w, []) == 0 && QuietWithout(w, [], e)
  {
  }

  lemma TwoSteps(w: World, x: Event, y: Event, rest: seq<Event>, e: nat)
    requires Enabled(w, x) && Enabled(Step(w, x), y)
    ensures var u, es := Step(Step(w, x), y), [x, y] + rest;
            && (Runs(w, es) <==> Runs(u, rest))
            && (Runs(u, rest) ==>
                  && After(w, es) == After(u, rest)
                  && FuzzJobs(w, es) == FuzzJobs(w, [x]) + FuzzJobs(Step(w, x), [y]) + FuzzJobs(u, rest)
                  && EmptyJobs(w, es) == EmptyJobs(w, [x]) + EmptyJobs(Step(w, x), [y]) + EmptyJobs(u, rest)
                  && (QuietWithout(w, es, e) <==>
                        Quiet(x) && !Picks(w, x, e) && Quiet(y) && !Picks(Step(w, x), y, e) && QuietWithout(u, rest, e)))
  {
    hide Enabled, Step, Picks, EndsEmpty, Quiet;
    var v, es := Step(w, x), [x, y] + rest;
    assert es[0] == x && es[1..] == [y] + rest && ([y] + rest)[0] == y && ([y] + rest)[1..] == rest;
    assert [x][1..] == [] && [y][1..] == [];
  }

  lemma EmptyRound(w: World, t: nat, e: nat, d: nat)
    requires CanStarve(w, t, e, d)
    ensures var get, done := GetJob(t, NOTHING, d), Done(t, false);
            && Enabled(w, get) && Quiet(get) && !Picks(w, get, e)
            && FuzzJobs(w, [get]) == 1 && EmptyJobs(w, [get]) == 0
            && var v := Step(w, get);
               && Enabled(v, done) && Quiet(done) && !Picks(v, done, e)
               && FuzzJobs(v, [done]) == 0 && EmptyJobs(v, [done]) == 1
               && CanStarve(Step(v, done), t, e, d)
  {
    var get, done := GetJob(t, NOTHING, d), Done(t, false);
    var f := w.fuzzer;
    assert f.numSamples > 0 && Settled(w.options, f, NOTHING) == Some(f);
    StepKeeps(w, get);
    var v := Step(w, get);
    StepKeeps(v, done);
    hide Inv;
    assert v.threads[t].held == Fuzzes(d, 0) && v.fuzzer == f.(queue := f.queue - {d});
    assert f.queue - {d} + {d} == f.queue;
    assert Step(v, done).fuzzer == f;
  }

  /** A run that leads there: one thread, two inputs, both with new coverage, and a first
      job. */
  function TwoInputs(a: string, b: string): seq<Event> {
    [GetJob(0, NOTHING, 0), CountSample(0), Enqueue(0, a, 0), Done(0, false),
     GetJob(0, NOTHING, 0), CountSample(0), Enqueue(0, b, 1), Done(0, false),
     GetJob(0, NOTHING, 1), Done(0, false)]
  }

  /** The run after `k` of the ten events. */
  function TwoInputsAt(o: Options, a: string, b: string, k: nat): World {
    var inputs, ab := [a, b], [a, b];
    var one, two := [NewEntry(0)], [NewEntry(0), NewEntry(1)];
    var input := InputSampleProcessing;
    if k == 0 then Start(o, inputs, 1)
    else if k == 1 then
      World(o, FuzzerState(input, [b], [], 1, [], {}, [], 0), [Thread(Processes(input, a), false, [])], inputs, [a], false)
    else if k == 2 then
      World(o, FuzzerState(input, [b], [], 1, [], {}, [], 1), [Thread(Processes(input, a), true, [])], inputs, [a], false)
    else if k == 3 then
      World(o, FuzzerState(input, [b], [], 1, one, {0}, [a], 1), [Thread(Processes(input, a), false, [])], inputs, [a], false)
    else if k == 4 then
      World(o, FuzzerState(input, [b], [], 0, one, {0}, [a], 1), [Thread(Idle, false, [])], inputs, [a], false)
    else if k == 5 then
      World(o, FuzzerState(input, [], [], 1, one, {0}, [a], 1), [Thread(Processes(input, b), false, [a])], inputs, ab, false)
    else if k == 6 then
      World(o, FuzzerState(input, [], [], 1, one, {0}, [a], 2), [Thread(Processes(input, b), true, [a])], inputs, ab, false)
    else if k == 7 then
      World(o, FuzzerState(input, [], [], 1, two, {0, 1}, ab, 2), [Thread(Processes(input, b), false, [a])], inputs, ab, false)
    else if k == 8 then
      World(o, FuzzerState(input, [], [], 0, two, {0, 1}, ab, 2), [Thread(Idle, false, [a])], inputs, ab, false)
    else if k == 9 then
      World(o, FuzzerState(Fuzzing, [], [], 0, two, {0}, ab, 2), [Thread(Fuzzes(1, 0), false, ab)], inputs, ab, true)
    else
      World(o, FuzzerState(Fuzzing, [], [], 0, two, {0, 1}, ab, 2), [Thread(Idle, false, ab)], inputs, ab, true)
  }

  lemma TwoInputsStep(o: Options, a: string, b: string, k: nat)
    requires !o.dryRun && k < 10
    ensures Enabled(TwoInputsAt(o, a, b, k), TwoInputs(a, b)[k])
    ensures Step(TwoInputsAt(o, a, b, k), TwoInputs(a, b)[k]) == TwoInputsAt(o, a, b, k + 1)
  {
    if k == 0 || k == 4 {
      TakesInput(o, a, b, k);
    } else if k == 8 {
      TakesNewer(o, a, b);
    } else {
      SavesInput(o, a, b, k);
    }
  }

  lemma TakesInput(o: Options, a: string, b: string, k: nat)
    requires k == 0 || k == 4
    ensures Enabled(TwoInputsAt(o, a, b, k), GetJob(0, NOTHING, 0))
    ensures Step(TwoInputsAt(o, a, b, k), GetJob(0, NOTHING, 0)) == TwoInputsAt(o, a, b, k + 1)
  {
    assert [a, b][1..] == [b] && [b][1..] == [] && [a] + [b] == [a, b] && [] + [a] == [a];
    OneThread(TwoInputsAt(o, a, b, k).threads[0], TwoInputsAt(o, a, b, k + 1).threads[0]);
  }

  lemma SavesInput(o: Options, a: string, b: string, k: nat)
    requires k < 10 && k != 0 && k != 4 && k != 8
    ensures Enabled(TwoInputsAt(o, a, b, k), TwoInputs(a, b)[k])
    ensures Step(TwoInputsAt(o, a, b, k), TwoInputs(a, b)[k]) == TwoInputsAt(o, a, b, k + 1)
  {
    OneThread(TwoInputsAt(o, a, b, k).threads[0], TwoInputsAt(o, a, b, k + 1).threads[0]);
    if k == 2 || k == 6 {
      EnqueuesInput(o, a, b, k);
    } else {
      hide Settled, NextJob, AfterEnqueue;
      assert k == 9 ==> {0} + {1} == {0, 1};
    }
  }

  lemma EnqueuesInput(o: Options, a: string, b: string, k: nat)
    requires k == 2 || k == 6
    ensures var x, i := if k == 2 then a else b, if k == 2 then 0 else 1;
            && Enabled(TwoInputsAt(o, a, b, k), Enqueue(0, x, i))
            && Step(TwoInputsAt(o, a, b, k), Enqueue(0, x, i)) == TwoInputsAt(o, a, b, k + 1)
  {
    hide Settled, NextJob;
    assert [a] + [b] == [a, b] && [] + [a] == [a] && {0} + {1} == {0, 1} && {} + {0} == {0};
    assert [NewEntry(0)] + [NewEntry(1)] == [NewEntry(0), NewEntry(1)];
    OneThread(TwoInputsAt(o, a, b, k).threads[0], TwoInputsAt(o, a, b, k + 1).threads[0]);
  }

  lemma TakesNewer(o: Options, a: string, b: string)
    requires !o.dryRun
    ensures Enabled(TwoInputsAt(o, a, b, 8), GetJob(0, NOTHING, 1))
    ensures Step(TwoInputsAt(o, a, b, 8), GetJob(0, NOTHING, 1)) == TwoInputsAt(o, a, b, 9)
  {
    var two := [NewEntry(0), NewEntry(1)];
    var f := FuzzerState(InputSampleProcessing, [], [], 0, two, {0, 1}, [a, b], 2);
    var g := f.(phase := Fuzzing);
    var h := g.(queue := {0});
    assert TwoInputsAt(o, a, b, 8).fuzzer == f && TwoInputsAt(o, a, b, 9).fuzzer == h;
    StartsFuzzing(o, f);
    assert NextJob(o, g, NOTHING, 1) == (h, Fuzz(1)) by {
      assert {0, 1} - {1} == {0};
    }
    assert IsTop(g, 1);
    assert [a] + [a, b][1..] == [a, b];
    OneThread(TwoInputsAt(o, a, b, 8).threads[0], TwoInputsAt(o, a, b, 9).threads[0]);
    hide Settled, NextJob, IsTop;
  }

  /** With nothing pending and no input left the first request turns to fuzzing. */
  lemma StartsFuzzing(o: Options, f: FuzzerState)
    requires f.phase == InputSampleProcessing && f.inputFiles == [] && f.serverSamples == []
    requires f.samplesPending == 0 && f.numSamples > 0
    ensures Settled(o, f, NOTHING) == Some(f.(phase := Fuzzing))
  {
    assert f.serverSamples + [] == f.serverSamples;
  }

  lemma OneThread(t: Thread, u: Thread)
    ensures [t][0 := u] == [u]
  {
  }

  lemma {:induction false} TwoInputsRun(o: Options, a: string, b: string, k: nat)
    requires !o.dryRun && k <= 10
    ensures var w, es := TwoInputsAt(o, a, b, k), TwoInputs(a, b)[k..];
            Runs(w, es) && After(w, es) == TwoInputsAt(o, a, b, 10)
    decreases 10 - k
  {
    if k < 10 {
      TwoInputsStep(o, a, b, k);
      TwoInputsRun(o, a, b, k + 1);
      hide TwoInputsAt, TwoInputs, Step, Enabled;
      assert TwoInputs(a, b)[k..][1..] == TwoInputs(a, b)[k + 1..];
    }
  }

  /** So the older entry starves in a run from the start of any fuzzer. */
  lemma StarvationIsReachable(o: Options, a: string, b: string)
    requires !o.dryRun
    ensures var w, es := Start(o, [a, b], 1), TwoInputs(a, b);
            Runs(w, es) && CanStarve(After(w, es), 0, 0, 1)
  {
    TwoInputsRun(o, a, b, 0);
    assert TwoInputs(a, b)[0..] == TwoInputs(a, b);
    StartKeeps(o, [a, b], 1);
    RunKeeps(Start(o, [a, b], 1), TwoInputs(a, b));
    hide Inv, Runs, Step;
  }
}
