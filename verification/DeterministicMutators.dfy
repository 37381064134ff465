/** The deterministic mutators and the sequence that runs them (mutator.cpp, mutator.h). */
module DeterministicMutators {
  import opened Wrappers
  import opened HotOffsets
  import opened Enumeration

  // ---------- A sequence of enumerations, by their histories ----------

  /** `histories[j]` is what child `j` was asked to do so far. */
  datatype Sequence = Sequence(index: nat, histories: seq<seq<Op>>)

  function ContextOf(s: Sequence, maxes: seq<nat>, j: nat): Context
    requires |maxes| == |s.histories| && j < |maxes|
  {
    Run(s.histories[j], maxes[j]).0
  }

  function Create(maxes: seq<nat>): Sequence {
    Sequence(0, seq(|maxes|, i => []))
  }

  function AddHotOffset(s: Sequence, offset: nat, restartOnHotOffset: bool): Sequence {
    Sequence(if restartOnHotOffset then 0 else s.index,
             seq(|s.histories|, i requires 0 <= i < |s.histories| => s.histories[i] + [Hot(offset)]))
  }

  function InitRound(s: Sequence, restartEachRound: bool): Sequence {
    if restartEachRound then s.(index := 0) else s
  }

  /** Asks the current child; when it has nothing left, moves on to the next one. */
  function MutateOnce(s: Sequence, maxes: seq<nat>): (r: (Sequence, Option<(nat, Emit)>))
    requires |maxes| == |s.histories|
    ensures |r.0.histories| == |s.histories|
    decreases |s.histories| - s.index
  {
    if s.index >= |s.histories| then (s, None)
    else
      var asked := s.histories[s.index := s.histories[s.index] + [Call]];
      match Next(ContextOf(s, maxes, s.index), maxes[s.index]).1
      case Some(m) => (Sequence(s.index, asked), Some((s.index, m)))
      case None => MutateOnce(Sequence(s.index + 1, asked), maxes)
  }

  datatype SeqOp = HotOffset(offset: nat) | Round | Step

  function RunAll(ops: seq<SeqOp>, maxes: seq<nat>, restartEachRound: bool, restartOnHotOffset: bool): (s: Sequence)
    ensures |s.histories| == |maxes|
  {
    if ops == [] then Create(maxes)
    else
      var s := RunAll(ops[..|ops| - 1], maxes, restartEachRound, restartOnHotOffset);
      match ops[|ops| - 1]
      case HotOffset(offset) => AddHotOffset(s, offset, restartOnHotOffset)
      case Round => InitRound(s, restartEachRound)
      case Step => MutateOnce(s, maxes).0
  }

  ghost predicate Exhausted(s: Sequence, maxes: seq<nat>, j: nat)
    requires |maxes| == |s.histories| && j < |maxes|
  {
    Next(ContextOf(s, maxes, j), maxes[j]).1.None?
  }

  lemma RunAppend(history: seq<Op>, op: Op, max: nat)
    ensures Run(history + [op], max).0 ==
      match op
      case Hot(offset) => AddHot(Run(history, max).0, offset)
      case Call => Next(Run(history, max).0, max).0
  {
    assert (history + [op])[..|history|] == history;
  }

  /** Asking an exhausted child again leaves it exhausted. */
  lemma StaysExhausted(history: seq<Op>, max: nat)
    requires max > 0 && Next(Run(history, max).0, max).1.None?
    ensures Next(Run(history + [Call], max).0, max).1.None?
  {
    RunTracks(history, max);
    RunAppend(history, Call, max);
    var c := Run(history, max).0;
    hide Run;
    NextDoes(c, max);
    NextUsesOneUnit(c, max);
    NextUsesOneUnit(Next(c, max).0, max);
  }

  /** What a step keeps and what it means: children before the index are exhausted. */
  lemma {:induction false} MutateOnceKeeps(s: Sequence, maxes: seq<nat>)
    requires |maxes| == |s.histories| && forall j :: 0 <= j < |maxes| ==> maxes[j] > 0
    requires s.index <= |maxes| && forall j :: 0 <= j < s.index ==> Exhausted(s, maxes, j)
    ensures var (t, e) := MutateOnce(s, maxes);
      && t.index <= |maxes| && (forall j :: 0 <= j < t.index ==> Exhausted(t, maxes, j))
      && (e.None? ==> t.index == |maxes|)
      && (forall j, o :: 0 <= j < |maxes| && Hot(o) in s.histories[j] ==> Hot(o) in t.histories[j])
    decreases |s.histories| - s.index
  {
    if s.index < |maxes| {
      var k := s.index;
      var asked := s.histories[k := s.histories[k] + [Call]];
      if Next(ContextOf(s, maxes, k), maxes[k]).1.None? {
        StaysExhausted(s.histories[k], maxes[k]);
        var t := Sequence(k + 1, asked);
        forall j | 0 <= j < t.index ensures Exhausted(t, maxes, j) {
          if j < k {
            assert Exhausted(s, maxes, j);
          }
        }
        MutateOnceKeeps(t, maxes);
      } else {
        var t := Sequence(k, asked);
        forall j | 0 <= j < k ensures Exhausted(t, maxes, j) {
          assert Exhausted(s, maxes, j);
        }
      }
    }
  }

  /** With restart on hot offsets, every child before the index is exhausted and every
      child has heard of every hot offset. */
  lemma {:induction false} RunAllKeeps(ops: seq<SeqOp>, maxes: seq<nat>, restartEachRound: bool)
    requires forall j :: 0 <= j < |maxes| ==> maxes[j] > 0
    ensures var s := RunAll(ops, maxes, restartEachRound, true);
      && s.index <= |maxes| && (forall j :: 0 <= j < s.index ==> Exhausted(s, maxes, j))
      && (forall j, o :: 0 <= j < |maxes| && HotOffset(o) in ops ==> Hot(o) in s.histories[j])
  {
    if ops != [] {
      var before, last := ops[..|ops| - 1], ops[|ops| - 1];
      RunAllKeeps(before, maxes, restartEachRound);
      var s := RunAll(before, maxes, restartEachRound, true);
      assert ops == before + [last];
      if last == Step {
        MutateOnceKeeps(s, maxes);
      }
    }
  }

  /** When the sequence has nothing left, every child has put every value on every byte of
      the window of every hot offset. */
  lemma SequenceIsComplete(ops: seq<SeqOp>, maxes: seq<nat>, restartEachRound: bool, offset: nat, j: nat, x: nat, v: nat)
    requires forall i :: 0 <= i < |maxes| ==> maxes[i] > 0
    requires MutateOnce(RunAll(ops, maxes, restartEachRound, true), maxes).1.None?
    requires HotOffset(offset) in ops && j < |maxes| && InWindow(offset, x) && v < maxes[j]
    ensures var t := MutateOnce(RunAll(ops, maxes, restartEachRound, true), maxes).0;
      exists m :: m in Run(t.histories[j], maxes[j]).1 && m.pos == x && m.value == v
  {
    RunAllKeeps(ops, maxes, restartEachRound);
    MutateOnceKeeps(RunAll(ops, maxes, restartEachRound, true), maxes);
    var t := MutateOnce(RunAll(ops, maxes, restartEachRound, true), maxes).0;
    assert Exhausted(t, maxes, j);
    FailureMeansComplete(t.histories[j], maxes[j], offset, x, v);
  }

  ghost predicate AlwaysComplete(restartEachRound: bool, restartOnHotOffset: bool) {
    forall ops, maxes, offset, j, x: nat, v: nat ::
      (forall i :: 0 <= i < |maxes| ==> maxes[i] > 0) &&
      MutateOnce(RunAll(ops, maxes, restartEachRound, restartOnHotOffset), maxes).1.None? &&
      HotOffset(offset) in ops && 0 <= j < |maxes| && InWindow(offset, x) && v < maxes[j]
      ==> HasTried(MutateOnce(RunAll(ops, maxes, restartEachRound, restartOnHotOffset), maxes).0, maxes, j, x, v)
  }

  /** Child `j` has put value `v` on byte `x`. */
  ghost predicate HasTried(s: Sequence, maxes: seq<nat>, j: nat, x: nat, v: nat)
    requires |maxes| == |s.histories| && j < |maxes|
  {
    exists m :: m in Run(s.histories[j], maxes[j]).1 && m.pos == x && m.value == v
  }

  /** The sequence may be relied on exactly when it restarts on hot offsets; restarting
      each round is not enough, as the round may go on after the hot offset. */
  lemma CompleteIffRestarts(restartEachRound: bool, restartOnHotOffset: bool)
    ensures AlwaysComplete(restartEachRound, restartOnHotOffset) <==> restartOnHotOffset
  {
    if restartOnHotOffset {
      forall ops, maxes, offset, j, x: nat, v: nat |
        && (forall i :: 0 <= i < |maxes| ==> maxes[i] > 0)
        && MutateOnce(RunAll(ops, maxes, restartEachRound, restartOnHotOffset), maxes).1.None?
        && HotOffset(offset) in ops && 0 <= j < |maxes| && InWindow(offset, x) && v < maxes[j]
        ensures HasTried(MutateOnce(RunAll(ops, maxes, restartEachRound, restartOnHotOffset), maxes).0, maxes, j, x, v)
      {
        SequenceIsComplete(ops, maxes, restartEachRound, offset, j, x, v);
      }
    } else {
      LateHotOffset(restartEachRound);
      var ops, maxes := [Step, HotOffset(0)], [1];
      assert HotOffset(0) in ops && InWindow(0, 0);
    }
  }

  /** A sequence that is through, then a hot offset: without a restart the next call still
      finds nothing to do, and the window is never touched. */
  lemma LateHotOffset(restartEachRound: bool)
    ensures var ops, maxes := [Step, HotOffset(0)], [1];
      var (s, e) := MutateOnce(RunAll(ops, maxes, restartEachRound, false), maxes);
      e.None? && !HasTried(s, maxes, 0, 0, 0)
  {
    var maxes: seq<nat> := [1];
    var s0, s1 := Create(maxes), Sequence(1, [[Call]]);
    var s2 := AddHotOffset(s1, 0, false);
    assert RunAll([], maxes, restartEachRound, false) == s0;
    RunAllAppend([], Step, maxes, restartEachRound, false);
    RunAllAppend([Step], HotOffset(0), maxes, restartEachRound, false);
    assert [] + [Step] == [Step] && [Step] + [HotOffset(0)] == [Step, HotOffset(0)];
    NothingToDo();
    hide RunAll, Run;
    assert s0.histories[0] == [] && s0.histories[0] + [Call] == [Call];
    assert s0.histories[0 := [Call]] == [[Call]];
    assert MutateOnce(s0, maxes).0 == s1;
    assert s2.index == 1 && s2.histories[0] == [Call, Hot(0)];
  }

  lemma NothingToDo()
    ensures Next(Run([], 1).0, 1).1.None? && Run([Call], 1).1 == [] && Run([Call, Hot(0)], 1).1 == []
  {
    assert [Call][..0] == [] && [Call, Hot(0)][..1] == [Call];
  }

  lemma RunAllAppend(ops: seq<SeqOp>, op: SeqOp, maxes: seq<nat>, restartEachRound: bool, restartOnHotOffset: bool)
    ensures RunAll(ops + [op], maxes, restartEachRound, restartOnHotOffset) ==
      var s := RunAll(ops, maxes, restartEachRound, restartOnHotOffset);
      match op
      case HotOffset(offset) => AddHotOffset(s, offset, restartOnHotOffset)
      case Round => InitRound(s, restartEachRound)
      case Step => MutateOnce(s, maxes).0
  {
    assert (ops + [op])[..|ops|] == ops;
  }

  // ---------- The context ----------

  lemma {:induction false} PassBy(rs: seq<Region>, i: nat, a: nat, b: nat)
    requires i <= |rs| && forall j :: 0 <= j < i ==> a > rs[j].end && a >= rs[j].start
    ensures AddWindow(rs, a, b) == rs[..i] + AddWindow(rs[i..], a, b)
  {
    if i == 0 {
      assert rs[0..] == rs && rs[..0] == [];
    } else {
      PassFirst(rs, a, b);
      hide AddWindow;
      PassBy(rs[1..], i - 1, a, b);
      assert rs[1..][i - 1..] == rs[i..];
      assert rs[..i] == [rs[0]] + rs[1..][..i - 1];
    }
  }

  lemma PassFirst(rs: seq<Region>, a: nat, b: nat)
    requires rs != [] && a > rs[0].end && a >= rs[0].start
    ensures AddWindow(rs, a, b) == [rs[0]] + AddWindow(rs[1..], a, b)
  {
  }

  lemma InsertBefore(rs: seq<Region>, i: nat, a: nat, b: nat)
    requires i < |rs| && a < rs[i].start && forall j :: 0 <= j < i ==> a > rs[j].end && a >= rs[j].start
    ensures AddWindow(rs, a, b) ==
      rs[..i] + [Region(a, if rs[i].start > b then b else rs[i].start, a, 0)] + rs[i..]
  {
    PassBy(rs, i, a, b);
  }

  lemma AlreadyThere(rs: seq<Region>, i: nat, a: nat, b: nat)
    requires i < |rs| && rs[i].start <= a <= rs[i].end && b <= rs[i].end
    requires forall j :: 0 <= j < i ==> a > rs[j].end && a >= rs[j].start
    ensures AddWindow(rs, a, b) == rs
  {
    PassBy(rs, i, a, b);
    assert rs == rs[..i] + rs[i..];
  }

  lemma Stretch(rs: seq<Region>, i: nat, a: nat, b: nat)
    requires i < |rs| && rs[i].start <= a <= rs[i].end < b
    requires forall j :: 0 <= j < i ==> a > rs[j].end && a >= rs[j].start
    ensures AddWindow(rs, a, b) == rs[i := rs[i].(end := b)]
  {
    PassBy(rs, i, a, b);
    assert rs[i := rs[i].(end := b)] == rs[..i] + ([rs[i].(end := b)] + rs[i..][1..]);
  }

  lemma InsertLast(rs: seq<Region>, a: nat, b: nat)
    requires forall j :: 0 <= j < |rs| ==> a > rs[j].end && a >= rs[j].start
    ensures AddWindow(rs, a, b) == rs + [Region(a, b, a, 0)]
  {
    PassBy(rs, |rs|, a, b);
    assert rs[..|rs|] == rs && rs[|rs|..] == [];
  }

  class BaseDeterministicContext {
    var regions: seq<Region>
    var curRegion: nat
    ghost const max: nat          // how many values its mutator has
    ghost var history: seq<Op>

    constructor (ghost max: nat)
      requires max > 0
      ensures this.max == max && history == [] && Valid()
    {
      regions, curRegion := [], 0;
      this.max, history := max, [];
    }

    ghost function Value(): Context
      reads this
    {
      Context(regions, curRegion)
    }

    ghost predicate Valid()
      reads this
    {
      max > 0 && Value() == Run(history, max).0
    }

    method AddHotOffset(offset: nat)
      requires Valid()
      modifies this
      ensures Valid() && history == old(history) + [Hot(offset)]
      ensures Value() == AddHot(old(Value()), offset)
    {
      curRegion := 0;
      ghost var before := regions;
      history := history + [Hot(offset)];
      RunAppend(old(history), Hot(offset), max);
      var a := if offset < BYTES_PREVIOUS then 0 else offset - BYTES_PREVIOUS;
      var b := offset + BYTES_NEXT;
      for i := 0 to |regions|
        invariant regions == before && curRegion == 0
        invariant forall j :: 0 <= j < i ==> a > before[j].end && a >= before[j].start
      {
        var r := regions[i];
        if a < r.start {
          var added := Region(a, if r.start > b then b else r.start, a, 0);
          InsertBefore(before, i, a, b);
          regions := regions[..i] + [added] + regions[i..];
          return;
        }
        if a <= r.end {
          if b <= r.end {
            AlreadyThere(before, i, a, b);
            return;
          }
          Stretch(before, i, a, b);
          regions := regions[i := r.(end := b)];
          return;
        }
      }
      InsertLast(before, a, b);
      regions := regions + [Region(a, b, a, 0)];
    }

    /** The next byte to mutate and the number of the value to put there. */
    method GetNextByteToMutate(max_progress: nat) returns (next: Option<(nat, nat)>)
      requires Valid() && max_progress == max
      modifies this
      ensures Valid() && history == old(history) + [Call]
      ensures Value() == Next(old(Value()), max).0
      ensures match Next(old(Value()), max).1
              case None => next == None
              case Some(m) => next == Some((m.pos, m.value))
    {
      history := history + [Call];
      RunAppend(old(history), Call, max);
      while curRegion < |regions|
        invariant history == old(history) + [Call]
        invariant Next(Value(), max) == Next(old(Value()), max)
        decreases |regions| - curRegion
      {
        assert regions[curRegion := regions[curRegion]] == regions;
        if regions[curRegion].progress >= max_progress {
          regions := regions[curRegion := regions[curRegion].(progress := 0, cur := regions[curRegion].cur + 1)];
        }
        if regions[curRegion].cur >= regions[curRegion].end {
          curRegion := curRegion + 1;
          continue;
        }
        next := Some((regions[curRegion].cur, regions[curRegion].progress));
        regions := regions[curRegion := regions[curRegion].(progress := regions[curRegion].progress + 1)];
        return;
      }
      next := None;
    }
  }

  // ---------- The mutators ----------

  /** Flips a byte to each of 256 values, or puts each of some byte strings. */
  datatype Kind = ByteFlip | InterestingValues(values: seq<string>)

  function ValueCount(kind: Kind): nat {
    match kind
    case ByteFlip => 256
    case InterestingValues(values) => |values|
  }

  function Payload(kind: Kind, value: nat): string
    requires value < ValueCount(kind)
  {
    match kind
    case ByteFlip => [value as char]
    case InterestingValues(values) => values[value]
  }

  function Maxes(kinds: seq<Kind>): seq<nat> {
    seq(|kinds|, i requires 0 <= i < |kinds| => ValueCount(kinds[i]))
  }

  /** The mutation is of a child that there is, and by a value that it has. */
  predicate Exists(kinds: seq<Kind>, e: Option<(nat, Emit)>) {
    e.Some? ==> e.value.0 < |kinds| && e.value.1.value < ValueCount(kinds[e.value.0])
  }

  /** The sample after a mutation by a child of the sequence, if there is one. */
  function Mutated(kinds: seq<Kind>, sample: string, e: Option<(nat, Emit)>): Option<string>
    requires Exists(kinds, e)
  {
    match e
    case None => None
    case Some((j, m)) => Some(Overwritten(sample, m.pos, Payload(kinds[j], m.value)))
  }

  /** A byte flip puts its value on one byte; an interesting value is copied as it is. */
  lemma MutatedBytes(kinds: seq<Kind>, sample: string, j: nat, m: Emit)
    requires Exists(kinds, Some((j, m)))
    ensures var out := Mutated(kinds, sample, Some((j, m))).value;
            match kinds[j]
            case ByteFlip => m.pos < |out| && out[m.pos] as int == m.value
            case InterestingValues(values) =>
              m.value < |values| && m.pos + |values[m.value]| <= |out|
              && out[m.pos..m.pos + |values[m.value]|] == values[m.value]
  {
  }

  function Overwritten(sample: string, pos: nat, bytes: string): (out: string)
    ensures Written(sample, pos, bytes, out)
  {
    var long := if pos + |bytes| > |sample| then sample + seq(pos + |bytes| - |sample|, i => '\0') else sample;
    long[..pos] + bytes + long[pos + |bytes|..]
  }

  /** `out` is `sample` with `bytes` written at `pos`, grown with zeros when too short. */
  ghost predicate Written(sample: string, pos: nat, bytes: string, out: string) {
    && |out| == (if pos + |bytes| > |sample| then pos + |bytes| else |sample|)
    && forall i :: 0 <= i < |out| ==>
         out[i] == if pos <= i < pos + |bytes| then bytes[i - pos] else if i < |sample| then sample[i] else '\0'
  }

  lemma WrittenOnce(sample: string, pos: nat, bytes: string, out: string)
    requires Written(sample, pos, bytes, out)
    ensures out == Overwritten(sample, pos, bytes)
  {
  }

  method WriteAt(sample: string, pos: nat, bytes: string) returns (out: string)
    ensures Written(sample, pos, bytes, out)
  {
    out := sample;
    if pos + |bytes| > |sample| {
      out := out + seq(pos + |bytes| - |sample|, i => '\0');
    }
    out := out[..pos] + bytes + out[pos + |bytes|..];
  }

  class MutatorSequence {
    const kinds: seq<Kind>
    const contexts: seq<BaseDeterministicContext>
    const restartEachRound: bool
    const restartOnHotOffset: bool
    var currentMutatorIndex: nat

    ghost predicate Valid()
      reads this, contexts
    {
      && |kinds| == |contexts|
      && (forall i, j :: 0 <= i < j < |contexts| ==> contexts[i] != contexts[j])
      && (forall i :: 0 <= i < |contexts| ==> contexts[i].Valid() && contexts[i].max == ValueCount(kinds[i]))
    }

    ghost function State(): (s: Sequence)
      reads this, contexts
      ensures |s.histories| == |contexts|
    {
      Sequence(currentMutatorIndex, seq(|contexts|, i requires 0 <= i < |contexts| reads contexts => contexts[i].history))
    }

    constructor (kinds: seq<Kind>, contexts: seq<BaseDeterministicContext>, restartEachRound: bool, restartOnHotOffset: bool)
      requires |kinds| == |contexts|
      requires forall i, j :: 0 <= i < j < |contexts| ==> contexts[i] != contexts[j]
      requires forall i :: 0 <= i < |contexts| ==>
        contexts[i].Valid() && contexts[i].history == [] && contexts[i].max == ValueCount(kinds[i])
      ensures Valid() && this.kinds == kinds && this.contexts == contexts && State() == Create(Maxes(kinds))
      ensures this.restartEachRound == restartEachRound && this.restartOnHotOffset == restartOnHotOffset
    {
      this.kinds, this.contexts := kinds, contexts;
      this.restartEachRound, this.restartOnHotOffset := restartEachRound, restartOnHotOffset;
      currentMutatorIndex := 0;
    }

    method StartRound()
      requires Valid()
      modifies this
      ensures Valid() && State() == InitRound(old(State()), restartEachRound)
    {
      if restartEachRound {
        currentMutatorIndex := 0;
      }
    }

    method AddHotOffsetToAll(offset: nat)
      requires Valid()
      modifies this, contexts
      ensures Valid() && State() == AddHotOffset(old(State()), offset, restartOnHotOffset)
    {
      hide Run, AddHot, ValueCount;
      for i := 0 to |contexts|
        invariant Valid() && currentMutatorIndex == old(currentMutatorIndex)
        invariant forall j :: 0 <= j < |contexts| ==>
          contexts[j].history == if j < i then old(contexts[j].history) + [Hot(offset)] else old(contexts[j].history)
      {
        contexts[i].AddHotOffset(offset);
      }
      if restartOnHotOffset {
        currentMutatorIndex := 0;
      }
    }

    /** The next mutation of the sample; None when every mutator has run out. */
    method Mutate(sample: string) returns (out: Option<string>)
      requires Valid()
      modifies this, contexts
      ensures Valid() && State() == MutateOnce(old(State()), Maxes(kinds)).0
      ensures var e := MutateOnce(old(State()), Maxes(kinds)).1;
              && Exists(kinds, e) && out == Mutated(kinds, sample, e)
              && match e
                 case None => true
                 case Some((j, m)) =>
                   match kinds[j]
                   case ByteFlip => m.pos < |out.value| && out.value[m.pos] as int == m.value
                   case InterestingValues(values) =>
                     m.value < |values| && m.pos + |values[m.value]| <= |out.value|
                     && out.value[m.pos..m.pos + |values[m.value]|] == values[m.value]
    {
      hide MutateOnce, Run, Next, Written, Overwritten, Payload, ValueCount;
      while currentMutatorIndex < |kinds|
        invariant Valid()
        invariant MutateOnce(State(), Maxes(kinds)) == MutateOnce(old(State()), Maxes(kinds))
        decreases |kinds| - currentMutatorIndex
      {
        var k := currentMutatorIndex;
        ghost var before := State();
        ghost var history := contexts[k].history;
        MutateOnceUnfolds(before, Maxes(kinds));
        ValueBelow(history, contexts[k].max);
        var next := contexts[k].GetNextByteToMutate(ValueCount(kinds[k]));
        assert State().histories == before.histories[k := history + [Call]];
        match next {
          case Some((pos, value)) =>
            var written := WriteAt(sample, pos, Payload(kinds[k], value));
            ghost var m := Next(ContextOf(before, Maxes(kinds), k), Maxes(kinds)[k]).1.value;
            WrittenOnce(sample, pos, Payload(kinds[k], value), written);
            MutatedBytes(kinds, sample, k, m);
            return Some(written);
          case None =>
            currentMutatorIndex := currentMutatorIndex + 1;
            assert State() == Sequence(k + 1, before.histories[k := before.histories[k] + [Call]]);
        }
      }
      MutateOnceUnfolds(State(), Maxes(kinds));
      out := None;
    }
  }

  lemma MutateOnceUnfolds(s: Sequence, maxes: seq<nat>)
    requires |maxes| == |s.histories|
    ensures s.index >= |maxes| ==> MutateOnce(s, maxes) == (s, None)
    ensures s.index < |maxes| ==>
      var asked := s.histories[s.index := s.histories[s.index] + [Call]];
      match Next(ContextOf(s, maxes, s.index), maxes[s.index]).1
      case Some(m) => MutateOnce(s, maxes) == (Sequence(s.index, asked), Some((s.index, m)))
      case None => MutateOnce(s, maxes) == MutateOnce(Sequence(s.index + 1, asked), maxes)
  {
  }

  lemma ValueBelow(history: seq<Op>, max: nat)
    requires max > 0
    ensures match Next(Run(history, max).0, max).1
            case None => true
            case Some(m) => m.value < max
  {
    RunTracks(history, max);
    NextDoes(Run(history, max).0, max);
  }
}
