/** The fuzzer's job queue (fuzzer.cpp): one step for each section under `queue_mutex`.
    A pointer to a queue entry is its position in `all_entries`. */
module Scheduling {
  import opened Wrappers

  const MIN_SAMPLES_TO_GENERATE := 10

  datatype Phase = InputSampleProcessing | ServerSampleProcessing | GeneratingSamples | Fuzzing

  datatype Entry = Entry(
    priority: int, sampleIndex: int, discarded: bool,
    numRuns: nat, numNewCoverage: nat, numHangs: nat, numCrashes: nat)

  function NewEntry(sampleIndex: int): Entry {
    Entry(0, sampleIndex, false, 0, 0, 0, 0)
  }

  datatype Options = Options(
    server: bool, skipInitialServerSync: bool, dryRun: bool,
    acceptableHangRatio: real, acceptableCrashRatio: real)

  datatype RunResult = OK | Hang | Crash | OtherError

  /** What a mutated sample comes to: it is too large to run, or its run ends. */
  datatype Mutation = TooLarge | Ran(foundNewCoverage: bool, result: RunResult)

  datatype FuzzerState = FuzzerState(
    phase: Phase, inputFiles: seq<string>, serverSamples: seq<string>, samplesPending: int,
    entries: seq<Entry>, queue: set<nat>, allSamples: seq<string>, numSamples: nat)

  /** What the outside world answers during one call: whether an update from the server is
      due and what it brings, and whether and what the mutator generates. */
  datatype Surroundings = Surroundings(updateDue: bool, updates: seq<string>, canGenerate: bool, generated: string)

  datatype Job = Wait | Process(sample: string) | Fuzz(entry: nat)

  // ---------- The order of the queue ----------

  /** CmpEntryPtrs: a lower priority comes later, and the older sample among equals. */
  predicate ComesAfter(a: Entry, b: Entry) {
    if a.priority == b.priority then a.sampleIndex < b.sampleIndex else a.priority < b.priority
  }

  ghost predicate InRange(f: FuzzerState) {
    forall e :: e in f.queue ==> e < |f.entries|
  }

  /** An entry that the priority queue may have on top. */
  ghost predicate IsTop(f: FuzzerState, e: nat)
    requires InRange(f)
  {
    e in f.queue && forall d :: d in f.queue ==> !ComesAfter(f.entries[e], f.entries[d])
  }

  // ---------- Jobs ----------

  /** The change of phase before a job is chosen; None is the fatal error of a fuzzer that
      has nothing to start from. */
  function Settled(o: Options, f: FuzzerState, s: Surroundings): Option<FuzzerState> {
    var f := if f.phase == Fuzzing && o.server && s.updateDue
             then f.(serverSamples := f.serverSamples + s.updates, phase := ServerSampleProcessing) else f;
    var f := if f.phase != InputSampleProcessing || f.inputFiles != [] || f.samplesPending != 0 then f
             else if !o.server then f.(phase := Fuzzing)
             else f.(phase := ServerSampleProcessing,
                     serverSamples := if o.skipInitialServerSync then f.serverSamples
                                      else f.serverSamples + s.updates);
    var f := if f.phase == ServerSampleProcessing && f.serverSamples == [] && f.samplesPending == 0
             then f.(phase := Fuzzing) else f;
    if f.phase == Fuzzing && f.numSamples == 0 && !s.canGenerate then None
    else
      var f := if f.phase == Fuzzing && f.numSamples == 0 then f.(phase := GeneratingSamples) else f;
      var f := if f.phase == GeneratingSamples && |f.queue| >= MIN_SAMPLES_TO_GENERATE && f.samplesPending == 0
               then f.(phase := Fuzzing) else f;
      Some(f)
  }

  /** The job for a settled fuzzer, and what remains; `top` is the entry on top. */
  function NextJob(o: Options, f: FuzzerState, s: Surroundings, top: nat): (FuzzerState, Job) {
    match f.phase
    case Fuzzing =>
      if o.dryRun || f.queue == {} then (f, Wait) else (f.(queue := f.queue - {top}), Fuzz(top))
    case InputSampleProcessing =>
      if f.inputFiles == [] then (f, Wait)
      else (f.(inputFiles := f.inputFiles[1..], samplesPending := f.samplesPending + 1), Process(f.inputFiles[0]))
    case ServerSampleProcessing =>
      if f.serverSamples == [] then (f, Wait)
      else (f.(serverSamples := f.serverSamples[1..], samplesPending := f.samplesPending + 1), Process(f.serverSamples[0]))
    case GeneratingSamples =>
      if |f.queue| >= MIN_SAMPLES_TO_GENERATE then (f, Wait)
      else (f.(samplesPending := f.samplesPending + 1), Process(s.generated))
  }

  function Synced(local: seq<string>, all: seq<string>): seq<string> {
    if |all| > |local| then local + all[|local|..] else local
  }

  function AfterJob(f: FuzzerState, job: Job, discard: bool): FuzzerState
    requires job.Fuzz? ==> job.entry < |f.entries|
  {
    match job
    case Wait => f
    case Process(_) => f.(samplesPending := f.samplesPending - 1)
    case Fuzz(e) =>
      if discard then f.(entries := f.entries[e := f.entries[e].(discarded := true)])
      else f.(queue := f.queue + {e})
  }

  /** A sample saved: a new entry with the best priority. */
  function AfterEnqueue(f: FuzzerState, sample: string, sampleIndex: int): FuzzerState {
    f.(entries := f.entries + [NewEntry(sampleIndex)],
       queue := f.queue + {|f.entries|},
       allSamples := f.allSamples + [sample])
  }

  /** One round of the loop of FuzzJob. */
  function MutationTried(e: Entry, m: Mutation): Entry {
    if m.TooLarge? then e
    else
      e.(priority := if m.foundNewCoverage then 0 else e.priority - 1,
         numRuns := e.numRuns + 1,
         numNewCoverage := e.numNewCoverage + if m.foundNewCoverage then 1 else 0,
         numHangs := e.numHangs + if m.result == Hang then 1 else 0,
         numCrashes := e.numCrashes + if m.result == Crash then 1 else 0)
  }

  lemma TooLargeChangesNothing(e: Entry)
    ensures MutationTried(e, TooLarge) == e
  {
  }

  function MutationsTried(e: Entry, ms: seq<Mutation>): Entry {
    if ms == [] then e else MutationTried(MutationsTried(e, ms[..|ms| - 1]), ms[|ms| - 1])
  }

  predicate TooCostly(o: Options, e: Entry) {
    || (e.numHangs > 10 && e.numHangs as real > e.numRuns as real * o.acceptableHangRatio)
    || (e.numCrashes > 100 && e.numCrashes as real > e.numRuns as real * o.acceptableCrashRatio)
  }

  /** What a mutation can count as. */
  datatype Count = ARun | NewCoverage | Ending(result: RunResult)

  predicate CountsAs(m: Mutation, c: Count) {
    m.Ran? && (c.NewCoverage? ==> m.foundNewCoverage) && (c.Ending? ==> m.result == c.result)
  }

  /** How many mutations of a list count as that. */
  function Number(ms: seq<Mutation>, c: Count): nat {
    |Counting(ms, c)|
  }

  function Counting(ms: seq<Mutation>, c: Count): set<nat> {
    set i | 0 <= i < |ms| && CountsAs(ms[i], c)
  }

  lemma NumberMore(ms: seq<Mutation>, c: Count)
    requires ms != []
    ensures Number(ms, c) == Number(ms[..|ms| - 1], c) + if CountsAs(ms[|ms| - 1], c) then 1 else 0
  {
    var n := |ms| - 1;
    assert Counting(ms, c) == Counting(ms[..n], c) + if CountsAs(ms[n], c) then {n} else {};
  }

  /** The counters of an entry count the runs of its mutations, those that found new
      coverage, and those that ended in a hang or a crash. */
  lemma {:induction false} CountersCount(e: Entry, ms: seq<Mutation>)
    ensures var tried := MutationsTried(e, ms);
            && tried.numRuns == e.numRuns + Number(ms, ARun)
            && tried.numNewCoverage == e.numNewCoverage + Number(ms, NewCoverage)
            && tried.numHangs == e.numHangs + Number(ms, Ending(Hang))
            && tried.numCrashes == e.numCrashes + Number(ms, Ending(Crash))
            && tried.sampleIndex == e.sampleIndex && tried.discarded == e.discarded
  {
    if ms != [] {
      CountersCount(e, ms[..|ms| - 1]);
      NumberMore(ms, ARun);
      NumberMore(ms, NewCoverage);
      NumberMore(ms, Ending(Hang));
      NumberMore(ms, Ending(Crash));
      hide Number;
    }
  }

  /** An entry costs too much when more than 10 of its runs hung, or more than 100 crashed,
      and these are more of all its runs than is acceptable. */
  lemma TooCostlyIff(o: Options, sampleIndex: int, ms: seq<Mutation>)
    ensures var runs := Number(ms, ARun) as real;
            var hangs, crashes := Number(ms, Ending(Hang)), Number(ms, Ending(Crash));
            TooCostly(o, MutationsTried(NewEntry(sampleIndex), ms))
            <==> || (hangs > 10 && hangs as real > runs * o.acceptableHangRatio)
                 || (crashes > 100 && crashes as real > runs * o.acceptableCrashRatio)
  {
    CountersCount(NewEntry(sampleIndex), ms);
    hide MutationsTried, Number;
  }

  /** What is tried in several jobs adds up. */
  lemma {:induction false} TriedInJobs(e: Entry, ms: seq<Mutation>, more: seq<Mutation>)
    ensures MutationsTried(MutationsTried(e, ms), more) == MutationsTried(e, ms + more)
  {
    if more == [] {
      assert ms + more == ms;
    } else {
      var n := |more| - 1;
      TriedInJobs(e, ms, more[..n]);
      assert (ms + more)[..|ms + more| - 1] == ms + more[..n];
    }
  }

  ghost predicate FindsNothing(ms: seq<Mutation>) {
    forall m :: m in ms ==> m.TooLarge? || !m.foundNewCoverage
  }

  /** A priority is minus the number of runs since the last that found new coverage, or
      since the entry was saved. */
  lemma {:induction false} PriorityCountsRuns(e: Entry, ms: seq<Mutation>, k: nat)
    requires k <= |ms| && FindsNothing(ms[k..])
    requires k == 0 || (ms[k - 1].Ran? && ms[k - 1].foundNewCoverage)
    ensures MutationsTried(e, ms).priority == (if k == 0 then e.priority else 0) - Number(ms[k..], ARun)
  {
    if k < |ms| {
      var before, last := ms[..|ms| - 1], ms[|ms| - 1];
      assert before[k..] == ms[k..][..|ms| - 1 - k] && ms[k..] == before[k..] + [last];
      assert forall m :: m in before[k..] ==> m in ms[k..];
      PriorityCountsRuns(e, before, k);
      NumberMore(ms[k..], ARun);
    }
  }

  lemma {:induction false} SomeTop(entries: seq<Entry>, queue: set<nat>) returns (top: nat)
    requires queue != {} && forall e :: e in queue ==> e < |entries|
    ensures top in queue && forall d :: d in queue ==> !ComesAfter(entries[top], entries[d])
    decreases |queue|
  {
    var e :| e in queue;
    var rest := queue - {e};
    if rest == {} {
      top := e;
    } else {
      var t := SomeTop(entries, rest);
      top := if ComesAfter(entries[t], entries[e]) then e else t;
    }
    assert forall d :: d in queue ==> d == e || d in rest;
  }

  // ---------- The fuzzer object ----------

  class ThreadContext {
    var allSamplesLocal: seq<string>

    constructor ()
      ensures allSamplesLocal == []
    {
      allSamplesLocal := [];
    }
  }

  class FuzzerQueue {
    const options: Options
    var phase: Phase
    var inputFiles: seq<string>
    var serverSamples: seq<string>
    var samplesPending: int
    var allEntries: seq<Entry>
    var sampleQueue: set<nat>
    var allSamples: seq<string>
    var numSamples: nat

    constructor (options: Options, inputFiles: seq<string>)
      ensures this.options == options && State() == FuzzerState(InputSampleProcessing, inputFiles, [], 0, [], {}, [], 0)
    {
      this.options, this.inputFiles := options, inputFiles;
      phase, serverSamples, samplesPending, allEntries, sampleQueue, allSamples, numSamples :=
        InputSampleProcessing, [], 0, [], {}, [], 0;
    }

    ghost function State(): FuzzerState
      reads this
    {
      FuzzerState(phase, inputFiles, serverSamples, samplesPending, allEntries, sampleQueue, allSamples, numSamples)
    }

    /** None is the fatal error. */
    method SynchronizeAndGetJob(tc: ThreadContext, s: Surroundings) returns (job: Option<Job>)
      requires InRange(State())
      modifies this, tc
      ensures tc.allSamplesLocal == Synced(old(tc.allSamplesLocal), old(allSamples))
      ensures job.None? <==> Settled(options, old(State()), s).None?
      ensures job.Some? ==>
                exists top :: (job.value.Fuzz? ==> IsTop(Settled(options, old(State()), s).value, top))
                              && (State(), job.value) == NextJob(options, Settled(options, old(State()), s).value, s, top)
    {
      if |allSamples| > |tc.allSamplesLocal| {
        tc.allSamplesLocal := tc.allSamplesLocal + allSamples[|tc.allSamplesLocal|..];
      }
      var ok := ChangePhase(s);
      if !ok {
        return None;
      }
      ghost var settled := State();
      hide Settled, NextJob;
      var next := TakeJob(s);
      job := Some(next);
      assert settled == Settled(options, old(State()), s).value;
    }

    /** Change state if needed; false is the fatal error. */
    method ChangePhase(s: Surroundings) returns (ok: bool)
      requires InRange(State())
      modifies this
      ensures ok <==> Settled(options, old(State()), s).Some?
      ensures ok ==> State() == Settled(options, old(State()), s).value && InRange(State())
    {
      if phase == Fuzzing && options.server && s.updateDue {
        serverSamples := serverSamples + s.updates;
        phase := ServerSampleProcessing;
      }
      if phase == InputSampleProcessing {
        if inputFiles == [] && samplesPending == 0 {
          if options.server {
            if !options.skipInitialServerSync {
              serverSamples := serverSamples + s.updates;
            }
            phase := ServerSampleProcessing;
          } else {
            phase := Fuzzing;
          }
        }
      }
      if phase == ServerSampleProcessing {
        if serverSamples == [] && samplesPending == 0 {
          phase := Fuzzing;
        }
      }
      if phase == Fuzzing && numSamples == 0 {
        if s.canGenerate {
          phase := GeneratingSamples;
        } else {
          return false;
        }
      }
      if phase == GeneratingSamples && |sampleQueue| >= MIN_SAMPLES_TO_GENERATE && samplesPending == 0 {
        phase := Fuzzing;
      }
      return true;
    }

    /** Create a job according to the state. */
    method TakeJob(s: Surroundings) returns (job: Job)
      requires InRange(State())
      modifies this
      ensures exists top :: (job.Fuzz? ==> IsTop(old(State()), top))
                            && (State(), job) == NextJob(options, old(State()), s, top)
    {
      ghost var before, chosen := State(), 0;
      if phase == Fuzzing && !options.dryRun {
        if sampleQueue == {} {
          job := Wait;
        } else {
          ghost var some := SomeTop(allEntries, sampleQueue);
          var top :| top in sampleQueue && forall d :: d in sampleQueue ==> !ComesAfter(allEntries[top], allEntries[d]);
          job := Fuzz(top);
          sampleQueue := sampleQueue - {top};
          chosen := top;
        }
      } else if phase == InputSampleProcessing {
        if inputFiles == [] {
          job := Wait;
        } else {
          job := Process(inputFiles[0]);
          inputFiles := inputFiles[1..];
          samplesPending := samplesPending + 1;
        }
      } else if phase == ServerSampleProcessing {
        if serverSamples == [] {
          job := Wait;
        } else {
          job := Process(serverSamples[0]);
          serverSamples := serverSamples[1..];
          samplesPending := samplesPending + 1;
        }
      } else if phase == GeneratingSamples {
        if |sampleQueue| >= MIN_SAMPLES_TO_GENERATE {
          job := Wait;
        } else {
          job := Process(s.generated);
          samplesPending := samplesPending + 1;
        }
      } else {
        job := Wait;
      }
      assert (State(), job) == NextJob(options, before, s, chosen);
    }

    method JobDone(job: Job, discardSample: bool)
      requires job.Fuzz? ==> job.entry < |allEntries|
      modifies this
      ensures State() == AfterJob(old(State()), job, discardSample)
      ensures job.Fuzz? ==>
                && allEntries == old(allEntries)[job.entry := old(allEntries)[job.entry].(
                     discarded := discardSample || old(allEntries)[job.entry].discarded)]
                && sampleQueue == old(sampleQueue) + if discardSample then {} else {job.entry}
      ensures samplesPending == old(samplesPending) - if job.Process? then 1 else 0
    {
      if job.Fuzz? {
        if discardSample {
          allEntries := allEntries[job.entry := allEntries[job.entry].(discarded := true)];
        } else {
          sampleQueue := sampleQueue + {job.entry};
        }
      } else if job.Process? {
        samplesPending := samplesPending - 1;
      }
    }

    /** The two sections of SaveSample: the number of samples, and the queue. */
    method CountSample()
      modifies this`numSamples
      ensures State() == old(State()).(numSamples := old(numSamples) + 1)
    {
      numSamples := numSamples + 1;
    }

    method EnqueueSample(sample: string, sampleIndex: int)
      modifies this
      ensures State() == AfterEnqueue(old(State()), sample, sampleIndex)
      ensures allSamples == old(allSamples) + [sample] && sampleQueue == old(sampleQueue) + {|old(allEntries)|}
      ensures allEntries == old(allEntries) + [Entry(0, sampleIndex, false, 0, 0, 0, 0)]
    {
      allSamples := allSamples + [sample];
      allEntries := allEntries + [NewEntry(sampleIndex)];
      sampleQueue := sampleQueue + {|allEntries| - 1};
    }

    /** FuzzJob, for the mutations the mutator comes up with until it stops: tries them in
        turn and gives the entry up as soon as it costs too much. */
    method FuzzJob(e: nat, mutations: seq<Mutation>) returns (discardSample: bool, ghost used: nat)
      requires e < |allEntries|
      modifies this`allEntries
      ensures used <= |mutations|
      ensures allEntries == old(allEntries)[e := MutationsTried(old(allEntries)[e], mutations[..used])]
      ensures if discardSample then used > 0 && mutations[used - 1].Ran? && TooCostly(options, allEntries[e])
              else used == |mutations|
      ensures forall k :: 0 < k < used && mutations[k - 1].Ran? ==>
                !TooCostly(options, MutationsTried(old(allEntries)[e], mutations[..k]))
    {
      hide MutationTried, TooCostly;
      discardSample := false;
      ghost var before := allEntries[e];
      for i := 0 to |mutations|
        invariant allEntries == old(allEntries)[e := MutationsTried(before, mutations[..i])]
        invariant forall k :: 0 < k <= i && mutations[k - 1].Ran? ==>
          !TooCostly(options, MutationsTried(before, mutations[..k]))
      {
        assert mutations[..i + 1][..i] == mutations[..i];
        used := i + 1;
        if mutations[i].TooLarge? {
          TooLargeChangesNothing(allEntries[e]);
          continue;
        }
        discardSample := CountRun(e, mutations[i].foundNewCoverage, mutations[i].result);
        if discardSample {
          return;
        }
      }
      used := |mutations|;
      assert mutations[..used] == mutations;
    }

    /** What follows a run; says whether the entry is to be discarded. */
    method CountRun(e: nat, foundNewCoverage: bool, result: RunResult) returns (discardSample: bool)
      requires e < |allEntries|
      modifies this`allEntries
      ensures allEntries == old(allEntries)[e := MutationTried(old(allEntries)[e], Ran(foundNewCoverage, result))]
      ensures discardSample <==> TooCostly(options, allEntries[e])
    {
      AdjustSamplePriority(e, foundNewCoverage);
      var entry := allEntries[e];
      entry := entry.(numRuns := entry.numRuns + 1);
      if foundNewCoverage {
        entry := entry.(numNewCoverage := entry.numNewCoverage + 1);
      }
      if result == Hang {
        entry := entry.(numHangs := entry.numHangs + 1);
      }
      if result == Crash {
        entry := entry.(numCrashes := entry.numCrashes + 1);
      }
      allEntries := allEntries[e := entry];
      if entry.numHangs > 10 && entry.numHangs as real > entry.numRuns as real * options.acceptableHangRatio {
        return true;
      }
      if entry.numCrashes > 100 && entry.numCrashes as real > entry.numRuns as real * options.acceptableCrashRatio {
        return true;
      }
      return false;
    }

    method AdjustSamplePriority(e: nat, foundNewCoverage: bool)
      requires e < |allEntries|
      modifies this`allEntries
      ensures allEntries == old(allEntries)[e := old(allEntries)[e].(
                priority := if foundNewCoverage then 0 else old(allEntries)[e].priority - 1)]
    {
      var entry := allEntries[e];
      if foundNewCoverage {
        entry := entry.(priority := 0);
      } else {
        entry := entry.(priority := entry.priority - 1);
      }
      allEntries := allEntries[e := entry];
    }
  }
}
