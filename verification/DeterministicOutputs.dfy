/** What the calls of a sequence of deterministic mutators make of a sample, over whole runs
    (mutator.cpp, DeterministicByteFlipMutator and DeterministicInterestingValueMutator). */
module DeterministicOutputs {
  import opened Wrappers
  import opened HotOffsets
  import opened Enumeration
  import opened DeterministicMutators

  // ---------- Calls and traces ----------

  /** The mutation that one call of the sequence emits, if it is by child `j`. */
  function Emits(e: Option<(nat, Emit)>, j: nat): seq<Emit> {
    match e
    case None => []
    case Some((i, m)) => if i == j then [m] else []
  }

  /** A call adds what it emits to the trace of the child that emits it, and nothing else. */
  lemma {:induction false} CallTraced(s: Sequence, maxes: seq<nat>, j: nat)
    requires |maxes| == |s.histories| && j < |maxes|
    ensures var (t, e) := MutateOnce(s, maxes);
            Run(t.histories[j], maxes[j]).1 == Run(s.histories[j], maxes[j]).1 + Emits(e, j)
    decreases |s.histories| - s.index
  {
    MutateOnceUnfolds(s, maxes);
    if s.index < |maxes| {
      var k := s.index;
      CallRuns(s.histories[k], maxes[k]);
      if Next(ContextOf(s, maxes, k), maxes[k]).1.None? {
        CallTraced(Sequence(k + 1, s.histories[k := s.histories[k] + [Call]]), maxes, j);
      }
    }
  }

  lemma CallRuns(history: seq<Op>, max: nat)
    ensures Run(history + [Call], max).1
            == Run(history, max).1 + match Next(Run(history, max).0, max).1 case None => [] case Some(m) => [m]
  {
    assert (history + [Call])[..|history|] == history;
  }

  lemma HotRuns(history: seq<Op>, offset: nat, max: nat)
    ensures Run(history + [Hot(offset)], max).1 == Run(history, max).1
  {
    assert (history + [Hot(offset)])[..|history|] == history;
  }

  /** The state before operation `k` of a run that restarts on hot offsets. */
  function Before(ops: seq<SeqOp>, k: nat, maxes: seq<nat>, restartEachRound: bool): (s: Sequence)
    requires k <= |ops|
    ensures |s.histories| == |maxes|
  {
    RunAll(ops[..k], maxes, restartEachRound, true)
  }

  /** Operation `k` of the run is a call in which child `j` emits `m`. */
  predicate CallEmits(ops: seq<SeqOp>, maxes: seq<nat>, restartEachRound: bool, k: nat, j: nat, m: Emit) {
    k < |ops| && ops[k] == Step && MutateOnce(Before(ops, k, maxes, restartEachRound), maxes).1 == Some((j, m))
  }

  lemma LastTraced(ops: seq<SeqOp>, maxes: seq<nat>, restartEachRound: bool, j: nat, m: Emit)
    requires ops != [] && j < |maxes|
    ensures var n := |ops| - 1;
            m in Run(RunAll(ops, maxes, restartEachRound, true).histories[j], maxes[j]).1
            <==> m in Run(RunAll(ops[..n], maxes, restartEachRound, true).histories[j], maxes[j]).1
                 || CallEmits(ops, maxes, restartEachRound, n, j, m)
  {
    var n := |ops| - 1;
    var s := RunAll(ops[..n], maxes, restartEachRound, true);
    match ops[n] {
      case HotOffset(offset) => HotRuns(s.histories[j], offset, maxes[j]);
      case Round =>
      case Step => CallTraced(s, maxes, j);
    }
    hide Run, MutateOnce;
  }

  lemma EmitsBefore(ops: seq<SeqOp>, maxes: seq<nat>, restartEachRound: bool, n: nat, k: nat, j: nat, m: Emit)
    requires k < n <= |ops|
    ensures CallEmits(ops[..n], maxes, restartEachRound, k, j, m) <==> CallEmits(ops, maxes, restartEachRound, k, j, m)
  {
    assert ops[..n][..k] == ops[..k];
  }

  /** The trace of a child is what the calls of the run emit for it. */
  lemma {:induction false} TraceIsCalls(ops: seq<SeqOp>, maxes: seq<nat>, restartEachRound: bool, j: nat, m: Emit)
    requires j < |maxes|
    ensures m in Run(RunAll(ops, maxes, restartEachRound, true).histories[j], maxes[j]).1
            <==> exists k :: CallEmits(ops, maxes, restartEachRound, k, j, m)
  {
    hide Run, RunAll, MutateOnce, CallEmits;
    EmitsWithin(ops, maxes, restartEachRound, j, m);
    if ops == [] {
      NothingTraced(maxes, restartEachRound, j);
    } else {
      var n := |ops| - 1;
      TraceIsCalls(ops[..n], maxes, restartEachRound, j, m);
      LastTraced(ops, maxes, restartEachRound, j, m);
      EmitsWithin(ops[..n], maxes, restartEachRound, j, m);
      forall k: nat | k < n
        ensures CallEmits(ops[..n], maxes, restartEachRound, k, j, m) <==> CallEmits(ops, maxes, restartEachRound, k, j, m)
      {
        EmitsBefore(ops, maxes, restartEachRound, n, k, j, m);
      }
    }
  }

  lemma NothingTraced(maxes: seq<nat>, restartEachRound: bool, j: nat)
    requires j < |maxes|
    ensures Run(RunAll([], maxes, restartEachRound, true).histories[j], maxes[j]).1 == []
  {
  }

  lemma EmitsWithin(ops: seq<SeqOp>, maxes: seq<nat>, restartEachRound: bool, j: nat, m: Emit)
    ensures forall k: nat :: CallEmits(ops, maxes, restartEachRound, k, j, m) ==> k < |ops|
  {
    hide MutateOnce, Before;
  }

  // ---------- Only windows, and only values that exist ----------

  lemma {:induction false} EmittedInWindow(history: seq<Op>, max: nat, m: Emit)
    requires max > 0 && m in Run(history, max).1
    ensures m.value < max && exists o :: Hot(o) in history && InWindow(o, m.pos)
  {
    var before, last := history[..|history| - 1], history[|history| - 1];
    var (c, t) := Run(before, max);
    if m in t {
      EmittedInWindow(before, max, m);
      var o :| Hot(o) in before && InWindow(o, m.pos);
      assert Hot(o) in history;
    } else {
      RunTracks(before, max);
      RunCovers(before, max, m.pos);
      hide Run;
      NextDoes(c, max);
      var k := Next(c, max).0.curRegion;
      assert c.regions[k].start <= m.pos < c.regions[k].end;
      var o :| Hot(o) in before && InWindow(o, m.pos);
      assert Hot(o) in history;
    }
  }

  lemma {:induction false} OnlyGivenOffsets(ops: seq<SeqOp>, maxes: seq<nat>, restartEachRound: bool, j: nat, o: nat)
    requires j < |maxes| && Hot(o) in RunAll(ops, maxes, restartEachRound, true).histories[j]
    ensures HotOffset(o) in ops
  {
    if ops != [] {
      var before, last := ops[..|ops| - 1], ops[|ops| - 1];
      assert ops == before + [last];
      var s := RunAll(before, maxes, restartEachRound, true);
      if last == Step {
        CallsHearNothing(s, maxes, j, o);
      }
      if last != HotOffset(o) {
        OnlyGivenOffsets(before, maxes, restartEachRound, j, o);
      }
    } else {
      assert false;
    }
  }

  lemma {:induction false} CallsHearNothing(s: Sequence, maxes: seq<nat>, j: nat, o: nat)
    requires |maxes| == |s.histories| && j < |maxes|
    ensures Hot(o) in MutateOnce(s, maxes).0.histories[j] ==> Hot(o) in s.histories[j]
    decreases |s.histories| - s.index
  {
    if s.index < |maxes| && Next(ContextOf(s, maxes, s.index), maxes[s.index]).1.None? {
      hide Next, Run;
      CallsHearNothing(Sequence(s.index + 1, s.histories[s.index := s.histories[s.index] + [Call]]), maxes, j, o);
    }
  }

  // ---------- The samples that the calls make ----------

  ghost predicate HaveValues(kinds: seq<Kind>) {
    forall j :: 0 <= j < |kinds| ==> ValueCount(kinds[j]) > 0
  }

  /** The sequence is asked once more after the run, and finds nothing left. */
  ghost predicate Fails(ops: seq<SeqOp>, kinds: seq<Kind>, restartEachRound: bool) {
    MutateOnce(RunAll(ops, Maxes(kinds), restartEachRound, true), Maxes(kinds)).1.None?
  }

  /** Operation `k` of the run is a call that makes `out` of the sample. */
  ghost predicate Makes(ops: seq<SeqOp>, kinds: seq<Kind>, restartEachRound: bool, sample: string, k: nat, out: string) {
    k < |ops| && ops[k] == Step &&
    var e := MutateOnce(Before(ops, k, Maxes(kinds), restartEachRound), Maxes(kinds)).1;
    Exists(kinds, e) && Mutated(kinds, sample, e) == Some(out)
  }

  /** Any byte is to be put by byte flips, and the values given by the other mutator. */
  predicate IsValueOf(kind: Kind, bytes: string) {
    match kind
    case ByteFlip => |bytes| == 1 && bytes[0] as int < 256
    case InterestingValues(values) => bytes in values
  }

  /** A child has a value that, written into the window of a hot offset, makes `out`: from 3
      bytes before it to 19 bytes after it. */
  ghost predicate Wanted(ops: seq<SeqOp>, kind: Kind, sample: string, offset: nat, x: nat, bytes: string, out: string) {
    HotOffset(offset) in ops && offset <= x + 3 && x < offset + 20 && IsValueOf(kind, bytes)
    && Written(sample, x, bytes, out)
  }

  lemma ValuesAre(kind: Kind, bytes: string)
    ensures IsValueOf(kind, bytes) <==> exists v :: 0 <= v < ValueCount(kind) && Payload(kind, v) == bytes
  {
    if IsValueOf(kind, bytes) {
      match kind {
        case ByteFlip => assert Payload(kind, bytes[0] as int) == bytes;
        case InterestingValues(values) =>
          var v :| 0 <= v < |values| && values[v] == bytes;
          assert Payload(kind, v) == bytes;
      }
    }
  }

  lemma CallMakes(ops: seq<SeqOp>, kinds: seq<Kind>, restartEachRound: bool, sample: string, k: nat, j: nat, m: Emit)
    requires CallEmits(ops, Maxes(kinds), restartEachRound, k, j, m) && j < |kinds| && m.value < ValueCount(kinds[j])
    ensures Makes(ops, kinds, restartEachRound, sample, k, Overwritten(sample, m.pos, Payload(kinds[j], m.value)))
  {
    hide RunAll, MutateOnce;
  }

  /** Whatever a call makes of the sample puts a value of a child into a window. */
  lemma MakesWanted(ops: seq<SeqOp>, kinds: seq<Kind>, restartEachRound: bool, sample: string, k: nat, out: string)
    returns (j: nat, offset: nat, x: nat, bytes: string)
    requires HaveValues(kinds) && Makes(ops, kinds, restartEachRound, sample, k, out)
    ensures j < |kinds| && Wanted(ops, kinds[j], sample, offset, x, bytes, out)
  {
    var maxes := Maxes(kinds);
    var (j', m) := MutateOnce(Before(ops, k, maxes, restartEachRound), maxes).1.value;
    j, x, bytes := j', m.pos, Payload(kinds[j'], m.value);
    hide MutateOnce, Run, RunAll, Payload, Written;
    assert CallEmits(ops, maxes, restartEachRound, k, j, m);
    TraceIsCalls(ops, maxes, restartEachRound, j, m);
    var history := RunAll(ops, maxes, restartEachRound, true).histories[j];
    EmittedInWindow(history, maxes[j], m);
    offset :| Hot(offset) in history && InWindow(offset, m.pos);
    OnlyGivenOffsets(ops, maxes, restartEachRound, j, offset);
    ValuesAre(kinds[j], bytes);
  }

  /** And once the sequence has nothing left, every such sample was made by some call. */
  lemma WantedIsMade(ops: seq<SeqOp>, kinds: seq<Kind>, restartEachRound: bool, sample: string,
                     j: nat, offset: nat, x: nat, bytes: string, out: string) returns (k: nat)
    requires HaveValues(kinds) && Fails(ops, kinds, restartEachRound)
    requires j < |kinds| && Wanted(ops, kinds[j], sample, offset, x, bytes, out)
    ensures Makes(ops, kinds, restartEachRound, sample, k, out)
  {
    var maxes := Maxes(kinds);
    ValuesAre(kinds[j], bytes);
    var v: nat :| v < ValueCount(kinds[j]) && Payload(kinds[j], v) == bytes;
    WrittenOnce(sample, x, bytes, out);
    SequenceIsComplete(ops, maxes, restartEachRound, offset, j, x, v);
    var s := RunAll(ops, maxes, restartEachRound, true);
    CallTraced(s, maxes, j);
    hide MutateOnce, Run, RunAll, Payload, Written, Overwritten;
    var m :| m in Run(s.histories[j], maxes[j]).1 && m.pos == x && m.value == v;
    TraceIsCalls(ops, maxes, restartEachRound, j, m);
    k :| CallEmits(ops, maxes, restartEachRound, k, j, m);
    CallMakes(ops, kinds, restartEachRound, sample, k, j, m);
  }

  /** When a sequence that restarts on hot offsets has nothing left, what its calls made of a
      sample is every value of every child at every byte of every window, and nothing else. */
  lemma OutputsAre(ops: seq<SeqOp>, kinds: seq<Kind>, restartEachRound: bool, sample: string, out: string)
    requires HaveValues(kinds) && Fails(ops, kinds, restartEachRound)
    ensures (exists k :: Makes(ops, kinds, restartEachRound, sample, k, out))
            <==> exists j, offset, x, bytes :: 0 <= j < |kinds| && Wanted(ops, kinds[j], sample, offset, x, bytes, out)
  {
    hide Makes, Wanted, HaveValues, Fails;
    if k :| Makes(ops, kinds, restartEachRound, sample, k, out) {
      var j, offset, x, bytes := MakesWanted(ops, kinds, restartEachRound, sample, k, out);
    }
    if j, offset: nat, x: nat, bytes :| 0 <= j < |kinds| && Wanted(ops, kinds[j], sample, offset, x, bytes, out) {
      var k := WantedIsMade(ops, kinds, restartEachRound, sample, j, offset, x, bytes, out);
    }
  }

  /** In particular some call put `v` on byte `x` and left the rest of the sample alone. */
  lemma EveryByteFlipped(ops: seq<SeqOp>, kinds: seq<Kind>, restartEachRound: bool, sample: string,
                         j: nat, offset: nat, x: nat, v: nat) returns (k: nat, out: string)
    requires HaveValues(kinds) && Fails(ops, kinds, restartEachRound)
    requires j < |kinds| && kinds[j] == ByteFlip && HotOffset(offset) in ops
    requires offset <= x + 3 && x < offset + 20 && v < 256
    ensures Makes(ops, kinds, restartEachRound, sample, k, out)
    ensures |out| == (if x < |sample| then |sample| else x + 1) && out[x] as int == v
    ensures forall i :: 0 <= i < |out| && i != x ==> out[i] == if i < |sample| then sample[i] else '\0'
  {
    out := Overwritten(sample, x, [v as char]);
    assert Written(sample, x, [v as char], out);
    hide Makes, HaveValues, Fails;
    k := WantedIsMade(ops, kinds, restartEachRound, sample, j, offset, x, [v as char], out);
  }

  // ---------- Restarting each round ----------

  lemma {:induction false} CallsForgetNothing(s: Sequence, maxes: seq<nat>, j: nat, o: nat)
    requires |maxes| == |s.histories| && j < |maxes| && Hot(o) in s.histories[j]
    ensures Hot(o) in MutateOnce(s, maxes).0.histories[j]
    decreases |s.histories| - s.index
  {
    if s.index < |maxes| && Next(ContextOf(s, maxes, s.index), maxes[s.index]).1.None? {
      hide Next, Run;
      CallsForgetNothing(Sequence(s.index + 1, s.histories[s.index := s.histories[s.index] + [Call]]), maxes, j, o);
    }
  }

  /** Every child hears of every hot offset, however the sequence restarts. */
  lemma {:induction false} AllHear(ops: seq<SeqOp>, maxes: seq<nat>, each: bool, onHot: bool, j: nat, o: nat)
    requires j < |maxes| && HotOffset(o) in ops
    ensures Hot(o) in RunAll(ops, maxes, each, onHot).histories[j]
  {
    var before, last := ops[..|ops| - 1], ops[|ops| - 1];
    assert ops == before + [last];
    if HotOffset(o) in before {
      AllHear(before, maxes, each, onHot, j, o);
      if last == Step {
        CallsForgetNothing(RunAll(before, maxes, each, onHot), maxes, j, o);
      }
    }
  }

  ghost predicate AllBeforeExhausted(s: Sequence, maxes: seq<nat>) {
    && |maxes| == |s.histories| && s.index <= |maxes|
    && forall j :: 0 <= j < s.index ==> Exhausted(s, maxes, j)
  }

  lemma {:induction false} StepsExhaust(ops: seq<SeqOp>, n: nat, maxes: seq<nat>, onHot: bool)
    requires forall j :: 0 <= j < |maxes| ==> maxes[j] > 0
    requires n < |ops| && ops[n] == Round && forall i :: n < i < |ops| ==> ops[i] == Step
    ensures AllBeforeExhausted(RunAll(ops, maxes, true, onHot), maxes)
    decreases |ops|
  {
    if n < |ops| - 1 {
      StepsExhaust(ops[..|ops| - 1], n, maxes, onHot);
      hide Run, Next;
      MutateOnceKeeps(RunAll(ops[..|ops| - 1], maxes, true, onHot), maxes);
    }
  }

  /** A sequence that restarts each round is complete for all hot offsets when a call fails in
      a round in which none came. */
  lemma RoundIsComplete(ops: seq<SeqOp>, n: nat, maxes: seq<nat>, onHot: bool, offset: nat, j: nat, x: nat, v: nat)
    requires forall i :: 0 <= i < |maxes| ==> maxes[i] > 0
    requires n < |ops| && ops[n] == Round && forall i :: n < i < |ops| ==> ops[i] == Step
    requires MutateOnce(RunAll(ops, maxes, true, onHot), maxes).1.None?
    requires HotOffset(offset) in ops && j < |maxes| && offset <= x + 3 && x < offset + 20 && v < maxes[j]
    ensures HasTried(MutateOnce(RunAll(ops, maxes, true, onHot), maxes).0, maxes, j, x, v)
  {
    var s := RunAll(ops, maxes, true, onHot);
    StepsExhaust(ops, n, maxes, onHot);
    AllHear(ops, maxes, true, onHot, j, offset);
    MutateOnceKeeps(s, maxes);
    hide RunAll, MutateOnce, Run, Next;
    var t := MutateOnce(s, maxes).0;
    assert Exhausted(t, maxes, j);
    FailureMeansComplete(t.histories[j], maxes[j], offset, x, v);
  }
}
