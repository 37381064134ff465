/** Rounds of deterministic and then of other mutations (mutator.h,
    DtermininsticNondeterministicMutator), over a sequence of deterministic mutators. */
module DeterministicRounds {
  import opened Wrappers
  import opened HotOffsets
  import opened Enumeration
  import opened DeterministicMutators

  // ---------- The work left in a sequence ----------

  /** How many mutations child `j` has left. */
  function Left(s: Sequence, maxes: seq<nat>, j: nat): int
    requires |maxes| == |s.histories| && j < |maxes|
  {
    Remaining(ContextOf(s, maxes, j).regions, maxes[j])
  }

  function WorkFrom(s: Sequence, maxes: seq<nat>, j: nat): int
    requires |maxes| == |s.histories| && j <= |maxes|
    decreases |maxes| - j
  {
    if j == |maxes| then 0 else Left(s, maxes, j) + WorkFrom(s, maxes, j + 1)
  }

  /** The children before the current one have nothing left. */
  ghost predicate Tidy(s: Sequence, maxes: seq<nat>) {
    && |maxes| == |s.histories| && s.index <= |maxes|
    && (forall j :: 0 <= j < |maxes| ==> maxes[j] > 0)
    && (forall j :: 0 <= j < s.index ==> Left(s, maxes, j) == 0)
  }

  lemma AskLeft(s: Sequence, maxes: seq<nat>, j: nat, index: nat)
    requires |maxes| == |s.histories| && j < |maxes| && maxes[j] > 0
    ensures var asked := s.histories[j := s.histories[j] + [Call]];
            var e := Next(ContextOf(s, maxes, j), maxes[j]).1;
            && (e.Some? <==> Left(s, maxes, j) > 0)
            && Left(Sequence(index, asked), maxes, j) == Left(s, maxes, j) - (if e.Some? then 1 else 0) >= 0
  {
    hide Run, Next, Remaining, InOrder, Tracked;
    RunTracks(s.histories[j], maxes[j]);
    RunAppend(s.histories[j], Call, maxes[j]);
    NextUsesOneUnit(ContextOf(s, maxes, j), maxes[j]);
  }

  /** Every sequence that restarts on hot offsets stays tidy. */
  lemma ReachableIsTidy(ops: seq<SeqOp>, maxes: seq<nat>, restartEachRound: bool)
    requires forall j :: 0 <= j < |maxes| ==> maxes[j] > 0
    ensures Tidy(RunAll(ops, maxes, restartEachRound, true), maxes)
  {
    RunAllKeeps(ops, maxes, restartEachRound);
    var s := RunAll(ops, maxes, restartEachRound, true);
    forall j | 0 <= j < s.index
      ensures Left(s, maxes, j) == 0
    {
      hide RunAll, Run, Next, Remaining;
      assert Exhausted(s, maxes, j);
      AskLeft(s, maxes, j, 0);
    }
  }

  lemma {:induction false} WorkChanges(s: Sequence, t: Sequence, maxes: seq<nat>, j: nat, k: nat)
    requires |maxes| == |s.histories| == |t.histories| && j <= |maxes| && k < |maxes|
    requires forall i :: 0 <= i < |maxes| && i != k ==> t.histories[i] == s.histories[i]
    ensures WorkFrom(t, maxes, j) - WorkFrom(s, maxes, j) == if j <= k then Left(t, maxes, k) - Left(s, maxes, k) else 0
    decreases |maxes| - j
  {
    hide Run, Remaining;
    if j < |maxes| {
      WorkChanges(s, t, maxes, j + 1, k);
    }
  }

  lemma {:induction false} WorkIsCount(s: Sequence, maxes: seq<nat>, j: nat)
    requires |maxes| == |s.histories| && j <= |maxes| && forall i :: 0 <= i < |maxes| ==> maxes[i] > 0
    ensures WorkFrom(s, maxes, j) >= 0
    ensures WorkFrom(s, maxes, j) == 0 <==> forall i :: j <= i < |maxes| ==> Left(s, maxes, i) == 0
    decreases |maxes| - j
  {
    if j < |maxes| {
      AskLeft(s, maxes, j, 0);
      hide Left;
      WorkIsCount(s, maxes, j + 1);
    }
  }

  lemma LeftElsewhere(s: Sequence, t: Sequence, maxes: seq<nat>, k: nat)
    requires |maxes| == |s.histories| == |t.histories|
    requires forall i :: 0 <= i < |maxes| && i != k ==> t.histories[i] == s.histories[i]
    ensures forall j :: 0 <= j < |maxes| && j != k ==> Left(t, maxes, j) == Left(s, maxes, j)
  {
  }

  /** Between hot offsets a call of the sequence succeeds exactly when some child has work
      left, and uses up one unit of it. */
  lemma {:induction false} SequenceUsesOneUnit(s: Sequence, maxes: seq<nat>)
    requires Tidy(s, maxes)
    ensures var (t, e) := MutateOnce(s, maxes);
            && Tidy(t, maxes)
            && (e.Some? <==> WorkFrom(s, maxes, 0) > 0)
            && WorkFrom(t, maxes, 0) == WorkFrom(s, maxes, 0) - (if e.Some? then 1 else 0)
    decreases |s.histories| - s.index
  {
    hide WorkFrom, Run, Next, Remaining, Left, MutateOnce, Tidy;
    assert |maxes| == |s.histories| by {
      TidyShape(s, maxes);
    }
    MutateOnceUnfolds(s, maxes);
    if s.index >= |maxes| {
      NothingLeft(s, maxes);
    } else {
      OneAsked(s, maxes);
      var e := Next(ContextOf(s, maxes, s.index), maxes[s.index]).1;
      if e.None? {
        SequenceUsesOneUnit(Asked(s, s.index + 1), maxes);
      }
    }
  }

  lemma TidyShape(s: Sequence, maxes: seq<nat>)
    requires Tidy(s, maxes)
    ensures |maxes| == |s.histories| && s.index <= |maxes|
  {
  }

  lemma NothingLeft(s: Sequence, maxes: seq<nat>)
    requires Tidy(s, maxes) && s.index >= |maxes|
    ensures WorkFrom(s, maxes, 0) == 0
  {
    hide Left;
    WorkIsCount(s, maxes, 0);
  }

  /** The sequence after its current child was asked. */
  function Asked(s: Sequence, index: nat): Sequence
    requires s.index < |s.histories|
  {
    Sequence(index, s.histories[s.index := s.histories[s.index] + [Call]])
  }

  lemma OneAsked(s: Sequence, maxes: seq<nat>)
    requires Tidy(s, maxes) && s.index < |maxes|
    ensures var e := Next(ContextOf(s, maxes, s.index), maxes[s.index]).1;
            var t := Asked(s, if e.Some? then s.index else s.index + 1);
            && Tidy(t, maxes) && WorkFrom(s, maxes, 0) >= 0
            && (e.Some? ==> WorkFrom(s, maxes, 0) > 0)
            && WorkFrom(t, maxes, 0) == WorkFrom(s, maxes, 0) - (if e.Some? then 1 else 0)
  {
    WorkIsCount(s, maxes, 0);
    hide WorkFrom, Run, Next, Remaining, Left;
    var k := s.index;
    var t := Asked(s, if Next(ContextOf(s, maxes, k), maxes[k]).1.Some? then k else k + 1);
    AskLeft(s, maxes, k, t.index);
    LeftElsewhere(s, t, maxes, k);
    WorkChanges(s, t, maxes, 0, k);
    WorkIsCount(t, maxes, 0);
  }

  // ---------- Rounds ----------

  datatype Source = Deterministic | Nondeterministic

  /** The sequence and the number of the next mutation in the round. */
  datatype Rounds = Rounds(currentRound: nat, sequence: Sequence)

  function MutateMixed(m: Rounds, maxes: seq<nat>, deterministic: nat, nondeterministic: nat): (Rounds, Option<Source>)
    requires |maxes| == |m.sequence.histories|
  {
    var tried := if m.currentRound < deterministic then MutateOnce(m.sequence, maxes) else (m.sequence, None);
    if tried.1.Some? then (Rounds(m.currentRound + 1, tried.0), Some(Deterministic))
    else if m.currentRound < deterministic + nondeterministic
    then (Rounds(m.currentRound + 1, tried.0), Some(Nondeterministic))
    else (Rounds(m.currentRound, tried.0), None)
  }

  function StartRound(m: Rounds, restartEachRound: bool): Rounds {
    Rounds(0, InitRound(m.sequence, restartEachRound))
  }

  /** The first `n` calls, and where their mutations came from. */
  function Calls(m: Rounds, maxes: seq<nat>, deterministic: nat, nondeterministic: nat, n: nat)
    : (r: (Rounds, seq<Option<Source>>))
    requires |maxes| == |m.sequence.histories|
    ensures |r.0.sequence.histories| == |maxes| && |r.1| == n
  {
    if n == 0 then (m, [])
    else
      var (before, sources) := Calls(m, maxes, deterministic, nondeterministic, n - 1);
      var (after, source) := MutateMixed(before, maxes, deterministic, nondeterministic);
      (after, sources + [source])
  }

  function Min(a: int, b: int): int {
    if a < b then a else b
  }

  /** What `n` calls from the start of a round have done. */
  ghost predicate DidCalls(m: Rounds, after: Rounds, maxes: seq<nat>, deterministic: nat, nondeterministic: nat, n: nat)
    requires |maxes| == |m.sequence.histories| == |after.sequence.histories|
  {
    var work := WorkFrom(m.sequence, maxes, 0);
    && Tidy(after.sequence, maxes)
    && after.currentRound == Min(n, deterministic + nondeterministic)
    && WorkFrom(after.sequence, maxes, 0) == work - Min(n, Min(work, deterministic))
  }

  lemma {:induction false} RoundWork(m: Rounds, maxes: seq<nat>, deterministic: nat, nondeterministic: nat, n: nat)
    requires Tidy(m.sequence, maxes) && m.currentRound == 0
    ensures DidCalls(m, Calls(m, maxes, deterministic, nondeterministic, n).0, maxes, deterministic, nondeterministic, n)
    ensures WorkFrom(m.sequence, maxes, 0) >= 0
  {
    WorkIsCount(m.sequence, maxes, 0);
    if n > 0 {
      hide WorkFrom, DidCalls, Calls, MutateMixed;
      RoundWork(m, maxes, deterministic, nondeterministic, n - 1);
      CallsMore(m, maxes, deterministic, nondeterministic, n);
      DidOneMore(m, Calls(m, maxes, deterministic, nondeterministic, n - 1).0, maxes, deterministic, nondeterministic, n);
    }
  }

  lemma DidOneMore(m: Rounds, before: Rounds, maxes: seq<nat>, deterministic: nat, nondeterministic: nat, n: nat)
    requires |maxes| == |m.sequence.histories| == |before.sequence.histories| && WorkFrom(m.sequence, maxes, 0) >= 0
    requires n > 0 && DidCalls(m, before, maxes, deterministic, nondeterministic, n - 1)
    ensures DidCalls(m, MutateMixed(before, maxes, deterministic, nondeterministic).0, maxes,
                     deterministic, nondeterministic, n)
  {
    hide WorkFrom, Tidy, MutateMixed, Min;
    MixedStep(before, maxes, deterministic, nondeterministic);
    MinStep(n, WorkFrom(m.sequence, maxes, 0), deterministic, nondeterministic);
  }

  lemma MinStep(n: nat, work: nat, deterministic: nat, nondeterministic: nat)
    requires n > 0
    ensures var all := deterministic + nondeterministic;
            var round, done := Min(n - 1, all), Min(n - 1, Min(work, deterministic));
            && Min(n, all) == (if round < all then round + 1 else round)
            && Min(n, Min(work, deterministic))
               == (if round < deterministic && work - done > 0 then done + 1 else done)
  {
  }

  /** In a round without new hot offsets the deterministic mutations come first, as many as
      there are and fit; the round ends after a fixed number of mutations. */
  lemma RoundShape(m: Rounds, maxes: seq<nat>, deterministic: nat, nondeterministic: nat, n: nat, k: nat)
    requires Tidy(m.sequence, maxes) && m.currentRound == 0 && k < n
    ensures Calls(m, maxes, deterministic, nondeterministic, n).1[k]
            == if k < Min(WorkFrom(m.sequence, maxes, 0), deterministic) then Some(Deterministic)
               else if k < deterministic + nondeterministic then Some(Nondeterministic) else None
  {
    assert |maxes| == |m.sequence.histories|;
    hide Calls, WorkFrom, Tidy, MutateMixed, Min, DidCalls;
    CallAt(m, maxes, deterministic, nondeterministic, n, k);
    RoundWork(m, maxes, deterministic, nondeterministic, k);
    SourceAfter(m, Calls(m, maxes, deterministic, nondeterministic, k).0, maxes, deterministic, nondeterministic, k);
  }

  lemma {:induction false} CallAt(m: Rounds, maxes: seq<nat>, deterministic: nat, nondeterministic: nat, n: nat, k: nat)
    requires |maxes| == |m.sequence.histories| && k < n
    ensures Calls(m, maxes, deterministic, nondeterministic, n).1[k]
            == MutateMixed(Calls(m, maxes, deterministic, nondeterministic, k).0, maxes, deterministic, nondeterministic).1
  {
    hide MutateMixed;
    if k < n - 1 {
      CallAt(m, maxes, deterministic, nondeterministic, n - 1, k);
    }
  }

  lemma SourceAfter(m: Rounds, before: Rounds, maxes: seq<nat>, deterministic: nat, nondeterministic: nat, k: nat)
    requires |maxes| == |m.sequence.histories| == |before.sequence.histories| && WorkFrom(m.sequence, maxes, 0) >= 0
    requires DidCalls(m, before, maxes, deterministic, nondeterministic, k)
    ensures MutateMixed(before, maxes, deterministic, nondeterministic).1
            == if k < Min(WorkFrom(m.sequence, maxes, 0), deterministic) then Some(Deterministic)
               else if k < deterministic + nondeterministic then Some(Nondeterministic) else None
  {
    hide WorkFrom, Tidy, MutateMixed, Min;
    MixedStep(before, maxes, deterministic, nondeterministic);
    MinSource(k, WorkFrom(m.sequence, maxes, 0), deterministic, nondeterministic);
  }

  lemma MinSource(k: nat, work: nat, deterministic: nat, nondeterministic: nat)
    ensures var all := deterministic + nondeterministic;
            var round, left := Min(k, all), work - Min(k, Min(work, deterministic));
            && (round < deterministic && left > 0 <==> k < Min(work, deterministic))
            && (round < all <==> k < all)
  {
  }

  lemma CallsMore(m: Rounds, maxes: seq<nat>, deterministic: nat, nondeterministic: nat, n: nat)
    requires |maxes| == |m.sequence.histories| && n > 0
    ensures var (before, sources) := Calls(m, maxes, deterministic, nondeterministic, n - 1);
            var (after, source) := MutateMixed(before, maxes, deterministic, nondeterministic);
            Calls(m, maxes, deterministic, nondeterministic, n) == (after, sources + [source])
  {
  }

  lemma MixedStep(m: Rounds, maxes: seq<nat>, deterministic: nat, nondeterministic: nat)
    requires Tidy(m.sequence, maxes)
    ensures var (after, source) := MutateMixed(m, maxes, deterministic, nondeterministic);
            var work, work' := WorkFrom(m.sequence, maxes, 0), WorkFrom(after.sequence, maxes, 0);
            && Tidy(after.sequence, maxes)
            && if m.currentRound < deterministic && work > 0
               then source == Some(Deterministic) && work' == work - 1 && after.currentRound == m.currentRound + 1
               else if m.currentRound < deterministic + nondeterministic
               then source == Some(Nondeterministic) && work' == work && after.currentRound == m.currentRound + 1
               else source == None && work' == work && after.currentRound == m.currentRound
  {
    hide WorkFrom, Tidy, MutateOnce;
    SequenceUsesOneUnit(m.sequence, maxes);
  }

  function AfterRounds(m: Rounds, maxes: seq<nat>, restartEachRound: bool, deterministic: nat, nondeterministic: nat, rounds: nat)
    : (r: Rounds)
    requires |maxes| == |m.sequence.histories|
    ensures |r.sequence.histories| == |maxes|
  {
    if rounds == 0 then m
    else
      var before := AfterRounds(m, maxes, restartEachRound, deterministic, nondeterministic, rounds - 1);
      Calls(StartRound(before, restartEachRound), maxes, deterministic, nondeterministic, deterministic + nondeterministic).0
  }

  /** Rounds pick up where the last one stopped: without new hot offsets, `r` rounds do
      `r * deterministic` of the mutations left, until none is. */
  lemma {:induction false} RoundsFinishWork(
    m: Rounds, maxes: seq<nat>, restartEachRound: bool, deterministic: nat, nondeterministic: nat, r: nat)
    requires Tidy(m.sequence, maxes)
    ensures var after := AfterRounds(m, maxes, restartEachRound, deterministic, nondeterministic, r);
            var work := WorkFrom(m.sequence, maxes, 0);
            && Tidy(after.sequence, maxes)
            && WorkFrom(after.sequence, maxes, 0) == work - Min(work, r * deterministic)
  {
    WorkIsCount(m.sequence, maxes, 0);
    if r > 0 {
      OneMoreTime(r, deterministic);
      RoundsFinishWork(m, maxes, restartEachRound, deterministic, nondeterministic, r - 1);
      hide Calls, WorkFrom, Tidy, Min;
      var before := AfterRounds(m, maxes, restartEachRound, deterministic, nondeterministic, r - 1);
      var work, done := WorkFrom(m.sequence, maxes, 0), (r - 1) * deterministic;
      RoundAfter(before, maxes, restartEachRound, deterministic, nondeterministic);
      MinSum(work, done, deterministic, nondeterministic);
    }
  }

  lemma RoundAfter(m: Rounds, maxes: seq<nat>, restartEachRound: bool, deterministic: nat, nondeterministic: nat)
    requires Tidy(m.sequence, maxes)
    ensures var all := deterministic + nondeterministic;
            var after := Calls(StartRound(m, restartEachRound), maxes, deterministic, nondeterministic, all).0;
            var work := WorkFrom(m.sequence, maxes, 0);
            && Tidy(after.sequence, maxes)
            && WorkFrom(after.sequence, maxes, 0) == work - Min(all, Min(work, deterministic))
  {
    RestartKeeps(m.sequence, maxes, restartEachRound);
    hide Calls, WorkFrom, Tidy, Min;
    RoundWork(StartRound(m, restartEachRound), maxes, deterministic, nondeterministic, deterministic + nondeterministic);
  }

  lemma OneMoreTime(r: nat, n: nat)
    requires r > 0
    ensures (r - 1) * n >= 0 && r * n == (r - 1) * n + n
  {
  }

  lemma MinSum(work: nat, a: nat, b: nat, c: nat)
    ensures Min(work, a + b) == Min(work, a) + Min(b + c, Min(work - Min(work, a), b))
  {
  }

  lemma RestartKeeps(s: Sequence, maxes: seq<nat>, restartEachRound: bool)
    requires Tidy(s, maxes)
    ensures Tidy(InitRound(s, restartEachRound), maxes)
    ensures WorkFrom(InitRound(s, restartEachRound), maxes, 0) == WorkFrom(s, maxes, 0)
  {
    if restartEachRound {
      hide Run, Remaining;
      if |maxes| > 0 {
        WorkChanges(s, InitRound(s, true), maxes, 0, 0);
      }
    }
  }

  // ---------- The mutator ----------

  class DeterministicNondeterministicMutator {
    var currentRound: nat
    const numRoundsDeterministic: nat
    const numRoundsNondeterministic: nat
    const deterministicMutator: MutatorSequence
    var lastMutator: Option<Source>

    constructor (deterministicMutator: MutatorSequence, numRoundsDeterministic: nat, numRoundsNondeterministic: nat)
      ensures this.deterministicMutator == deterministicMutator && currentRound == 0
      ensures this.numRoundsDeterministic == numRoundsDeterministic
      ensures this.numRoundsNondeterministic == numRoundsNondeterministic
    {
      this.deterministicMutator := deterministicMutator;
      this.numRoundsDeterministic, this.numRoundsNondeterministic := numRoundsDeterministic, numRoundsNondeterministic;
      currentRound, lastMutator := 0, None;
    }

    ghost function State(): Rounds
      reads this, deterministicMutator, deterministicMutator.contexts
    {
      Rounds(currentRound, deterministicMutator.State())
    }

    method BeginRound()
      requires deterministicMutator.Valid()
      modifies this`currentRound, deterministicMutator
      ensures deterministicMutator.Valid()
      ensures State() == StartRound(old(State()), deterministicMutator.restartEachRound)
    {
      deterministicMutator.StartRound();
      currentRound := 0;
    }

    /** `random` is what the other mutator makes of the sample. */
    method Mutate(sample: string, random: string) returns (out: Option<string>)
      requires deterministicMutator.Valid()
      modifies this`currentRound, this`lastMutator, deterministicMutator, deterministicMutator.contexts
      ensures deterministicMutator.Valid()
      ensures var (after, source) := MutateMixed(
                  old(State()), Maxes(deterministicMutator.kinds), numRoundsDeterministic, numRoundsNondeterministic);
              && State() == after && (out.Some? <==> source.Some?)
              && (source.Some? ==> lastMutator == source)
              && (source == Some(Nondeterministic) ==> out == Some(random))
              && (source == Some(Deterministic) ==>
                    var e := MutateOnce(old(State()).sequence, Maxes(deterministicMutator.kinds)).1;
                    e.Some? && Exists(deterministicMutator.kinds, e) && out == Mutated(deterministicMutator.kinds, sample, e))
    {
      hide MutateOnce, Overwritten, Written, Payload, ValueCount;
      if currentRound < numRoundsDeterministic {
        out := deterministicMutator.Mutate(sample);
        if out.Some? {
          lastMutator := Some(Deterministic);
          currentRound := currentRound + 1;
          return;
        }
      }
      if currentRound < numRoundsDeterministic + numRoundsNondeterministic {
        lastMutator := Some(Nondeterministic);
        currentRound := currentRound + 1;
        return Some(random);
      }
      return None;
    }
  }
}
