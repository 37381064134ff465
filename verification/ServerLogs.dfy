/** The coverage server's state as a function of the reports it has accepted (server.cpp,
    ReportNewCoverage), and the search in its log of timestamps (GetIndex). */
module ServerLogs {
  import opened Coverages

  /** The samples from `index` on arrived with this timestamp or later. */
  datatype TimestampIndex = TimestampIndex(timestamp: nat, index: nat)

  datatype ServerState = ServerState(
    totalCoverage: Coverage, serverTimestamp: nat, samples: seq<string>, timestamps: seq<TimestampIndex>)

  const EMPTY := ServerState({}, 0, [], [])

  /** A report under the write lock: coverage the server has not seen moves the timestamp,
      and the samples sent with it enter the corpus. */
  function AfterReport(s: ServerState, coverage: Coverage, samples: seq<string>): ServerState {
    var increment := Difference(s.totalCoverage, coverage);
    if increment == {} then s else WithCommit(s, Commit(increment, samples))
  }

  /** What an accepted report added. */
  datatype Commit = Commit(increment: Coverage, samples: seq<string>)

  function WithCommit(s: ServerState, c: Commit): ServerState {
    ServerState(
      s.totalCoverage + c.increment,
      s.serverTimestamp + 1,
      s.samples + c.samples,
      if c.samples == [] then s.timestamps
      else s.timestamps + [TimestampIndex(s.serverTimestamp + 1, |s.samples|)])
  }

  function Replay(commits: seq<Commit>): ServerState {
    if commits == [] then EMPTY else WithCommit(Replay(commits[..|commits| - 1]), commits[|commits| - 1])
  }

  /** Every commit added coverage, all of it new. */
  ghost predicate Increments(commits: seq<Commit>) {
    commits != [] ==>
      var before, last := commits[..|commits| - 1], commits[|commits| - 1];
      Increments(before) && last.increment != {} && last.increment !! Replay(before).totalCoverage
  }

  lemma ReplayMore(commits: seq<Commit>, c: Commit)
    ensures Replay(commits + [c]) == WithCommit(Replay(commits), c)
    ensures Increments(commits + [c])
            <==> Increments(commits) && c.increment != {} && c.increment !! Replay(commits).totalCoverage
  {
    assert (commits + [c])[..|commits|] == commits;
  }

  /** A report is either nothing new or one more commit. */
  lemma ReportCommits(commits: seq<Commit>, coverage: Coverage, samples: seq<string>)
    requires Increments(commits)
    ensures var s := Replay(commits);
            var increment := Difference(s.totalCoverage, coverage);
            if increment == {} then AfterReport(s, coverage, samples) == s
            else AfterReport(s, coverage, samples) == Replay(commits + [Commit(increment, samples)])
                 && Increments(commits + [Commit(increment, samples)])
  {
    var increment := Difference(Replay(commits).totalCoverage, coverage);
    ReplayMore(commits, Commit(increment, samples));
  }

  /** The timestamp counts the commits, and the total coverage limits it. */
  lemma {:induction false} TimestampBounded(commits: seq<Commit>)
    requires Increments(commits)
    ensures Replay(commits).serverTimestamp == |commits| <= |Replay(commits).totalCoverage|
  {
    if commits != [] {
      var before, last := commits[..|commits| - 1], commits[|commits| - 1];
      TimestampBounded(before);
      var total := Replay(before).totalCoverage;
      assert |total + last.increment| == |total| + |last.increment|;
    }
  }

  /** The increments make up the total coverage... */
  lemma {:induction false} IncrementsCoverTotal(commits: seq<Commit>, x: (string, nat))
    ensures x in Replay(commits).totalCoverage <==> exists i :: 0 <= i < |commits| && x in commits[i].increment
  {
    if commits != [] {
      var before := commits[..|commits| - 1];
      IncrementsCoverTotal(before, x);
      hide Replay;
      if i :| 0 <= i < |before| && x in before[i].increment {
        assert x in commits[i].increment;
      }
      if i :| 0 <= i < |before| && x in commits[i].increment {
        assert x in before[i].increment;
      }
    }
  }

  /** ... and no offset counts twice. */
  lemma {:induction false} IncrementsDisjoint(commits: seq<Commit>, i: nat, j: nat)
    requires Increments(commits) && i < j < |commits|
    ensures commits[i].increment != {} && commits[j].increment != {}
    ensures commits[i].increment !! commits[j].increment
  {
    var n := |commits| - 1;
    var before := commits[..n];
    assert before[i] == commits[i];
    if j < n {
      IncrementsDisjoint(before, i, j);
    } else {
      IncrementNonEmpty(before, i);
      forall x | x in before[i].increment
        ensures x in Replay(before).totalCoverage
      {
        IncrementsCoverTotal(before, x);
      }
    }
  }

  lemma {:induction false} IncrementNonEmpty(commits: seq<Commit>, i: nat)
    requires Increments(commits) && i < |commits|
    ensures commits[i].increment != {}
  {
    if i < |commits| - 1 {
      IncrementNonEmpty(commits[..|commits| - 1], i);
    }
  }

  // ---------- The corpus ----------

  /** All samples of a list of commits, one commit after the other. */
  function Corpus(commits: seq<Commit>): seq<string> {
    if commits == [] then [] else commits[0].samples + Corpus(commits[1..])
  }

  lemma {:induction false} CorpusMore(commits: seq<Commit>, c: Commit)
    ensures Corpus(commits + [c]) == Corpus(commits) + c.samples
  {
    if commits == [] {
    } else {
      assert (commits + [c])[1..] == commits[1..] + [c];
      CorpusMore(commits[1..], c);
    }
  }

  lemma {:induction false} CorpusSplits(commits: seq<Commit>, t: nat)
    requires t <= |commits|
    ensures Corpus(commits) == Corpus(commits[..t]) + Corpus(commits[t..])
  {
    if t == 0 {
      assert commits[0..] == commits;
    } else {
      CorpusSplits(commits[1..], t - 1);
      assert commits[..t][1..] == commits[1..][..t - 1] && commits[1..][t - 1..] == commits[t..];
    }
  }

  /** The server keeps every sample of every commit, once, in the order of the commits. */
  lemma {:induction false} SamplesAreCorpus(commits: seq<Commit>)
    ensures Replay(commits).samples == Corpus(commits)
  {
    if commits != [] {
      var before, last := commits[..|commits| - 1], commits[|commits| - 1];
      SamplesAreCorpus(before);
      CorpusMore(before, last);
      assert before + [last] == commits;
    }
  }

  // ---------- The log ----------

  ghost predicate IsLog(log: seq<TimestampIndex>, size: nat) {
    && (forall i, j :: 0 <= i < j < |log| ==> log[i].timestamp < log[j].timestamp && log[i].index < log[j].index)
    && (forall i :: 0 <= i < |log| ==> log[i].timestamp > 0 && log[i].index < size)
    && (if log == [] then size == 0 else log[0].index == 0)
  }

  lemma LogAppended(s: ServerState, n: nat, c: Commit)
    requires IsLog(s.timestamps, |s.samples|) && s.serverTimestamp == n
    requires forall e :: e in s.timestamps ==> e.timestamp <= n
    ensures IsLog(WithCommit(s, c).timestamps, |WithCommit(s, c).samples|)
    ensures forall e :: e in WithCommit(s, c).timestamps ==> e.timestamp <= n + 1
  {
    var log := s.timestamps;
    forall i | 0 <= i < |log|
      ensures log[i].timestamp <= n
    {
      assert log[i] in log;
    }
    if c.samples != [] {
      var e := TimestampIndex(n + 1, |s.samples|);
      forall i, j | 0 <= i < j < |log| + 1
        ensures (log + [e])[i].timestamp < (log + [e])[j].timestamp && (log + [e])[i].index < (log + [e])[j].index
      {
        assert log[i].timestamp <= n;
      }
    }
  }

  lemma {:induction false} ReplayIsLog(commits: seq<Commit>)
    ensures IsLog(Replay(commits).timestamps, |Replay(commits).samples|)
    ensures Replay(commits).serverTimestamp == |commits|
    ensures forall e :: e in Replay(commits).timestamps ==> e.timestamp <= |commits|
  {
    if commits != [] {
      var before, last := commits[..|commits| - 1], commits[|commits| - 1];
      ReplayIsLog(before);
      LogAppended(Replay(before), |before|, last);
    }
  }

  /** The log has an entry for each commit that brought samples, and no other: its timestamp,
      and how many samples the commits before it brought. */
  lemma {:induction false} LogEntriesAre(commits: seq<Commit>, e: TimestampIndex)
    ensures e in Replay(commits).timestamps
            <==> exists i :: 0 <= i < |commits| && commits[i].samples != []
                             && e == TimestampIndex(i + 1, |Corpus(commits[..i])|)
  {
    if commits != [] {
      var n := |commits| - 1;
      var before := commits[..n];
      LogEntriesAre(before, e);
      ReplayIsLog(before);
      SamplesAreCorpus(before);
      hide Corpus, IsLog;
      forall i | 0 <= i < n
        ensures before[..i] == commits[..i] && before[i] == commits[i]
      {
      }
    }
  }

  /** The index of the first entry after a timestamp, or `last` when there is none. */
  function FirstIndexAfter(log: seq<TimestampIndex>, timestamp: nat, last: nat): nat {
    if log == [] then last
    else if log[0].timestamp > timestamp then log[0].index
    else FirstIndexAfter(log[1..], timestamp, last)
  }

  lemma {:induction false} FirstIndexAfterAppend(log: seq<TimestampIndex>, e: TimestampIndex, timestamp: nat, last: nat)
    ensures FirstIndexAfter(log + [e], timestamp, last)
            == FirstIndexAfter(log, timestamp, if e.timestamp > timestamp then e.index else last)
  {
    if log == [] {
    } else {
      assert (log + [e])[1..] == log[1..] + [e];
      FirstIndexAfterAppend(log[1..], e, timestamp, last);
    }
  }

  lemma {:induction false} FirstIndexAt(log: seq<TimestampIndex>, timestamp: nat, last: nat, m: nat)
    requires m <= |log|
    requires forall i :: 0 <= i < m ==> log[i].timestamp <= timestamp
    requires m < |log| ==> log[m].timestamp > timestamp
    ensures FirstIndexAfter(log, timestamp, last) == if m < |log| then log[m].index else last
  {
    if m > 0 {
      FirstIndexAt(log[1..], timestamp, last, m - 1);
    }
  }

  /** The search finds where the samples of the commits after `t` begin. */
  lemma {:induction false} IndexSplitsCorpus(commits: seq<Commit>, t: nat)
    requires t <= |commits|
    ensures FirstIndexAfter(Replay(commits).timestamps, t, |Corpus(commits)|) == |Corpus(commits[..t])|
  {
    var s := Replay(commits);
    SamplesAreCorpus(commits);
    if t == |commits| {
      assert commits[..t] == commits;
      ReplayIsLog(commits);
      assert forall i :: 0 <= i < |s.timestamps| ==> s.timestamps[i] in s.timestamps;
      FirstIndexAt(s.timestamps, t, |s.samples|, |s.timestamps|);
    } else {
      var before, last := commits[..|commits| - 1], commits[|commits| - 1];
      ReplayIsLog(before);
      IndexSplitsCorpus(before, t);
      SamplesAreCorpus(before);
      assert before[..t] == commits[..t];
      var b := Replay(before);
      if last.samples != [] {
        FirstIndexAfterAppend(b.timestamps, TimestampIndex(b.serverTimestamp + 1, |b.samples|), t, |s.samples|);
      }
    }
  }

  /** The search in the log: the walk after the binary search takes at most one step, and
      the fatal error never happens. */
  method GetIndex(timestamps: seq<TimestampIndex>, timestamp: nat, lastIndex: nat)
    returns (index: nat, ghost steps: nat)
    requires IsLog(timestamps, lastIndex)
    ensures index == FirstIndexAfter(timestamps, timestamp, lastIndex)
    ensures steps <= 1
  {
    steps := 0;
    if timestamp == 0 {
      FirstIndexAt(timestamps, timestamp, lastIndex, 0);
      return 0, 0;
    }
    if timestamps == [] {
      return 0, 0;
    }
    if timestamp >= timestamps[|timestamps| - 1].timestamp {
      FirstIndexAt(timestamps, timestamp, lastIndex, |timestamps|);
      return lastIndex, 0;
    }
    var l, r, m := 0, |timestamps| - 1, 0;
    while l <= r
      invariant 0 <= l <= r + 1 <= |timestamps|
      invariant forall i :: 0 <= i < l ==> timestamps[i].timestamp < timestamp
      invariant forall i :: r < i < |timestamps| ==> timestamps[i].timestamp > timestamp
      invariant 0 <= m < |timestamps|
      invariant (l == 0 && r == |timestamps| - 1) || m == l - 1 || m == r + 1
    {
      m := (l + r) / 2;
      if timestamps[m].timestamp < timestamp {
        l := m + 1;
      } else if timestamps[m].timestamp > timestamp {
        r := m - 1;
      } else {
        break;
      }
    }
    ghost var found := m;
    ghost var first := if timestamps[m].timestamp > timestamp then m else m + 1;
    assert timestamps[first].timestamp > timestamp;
    assert forall i :: 0 <= i < first ==> timestamps[i].timestamp <= timestamp;
    m := Walk(timestamps, timestamp, lastIndex, m);
    assert m == first;
    steps := if m > found then m - found else found - m;
    FirstIndexAt(timestamps, timestamp, lastIndex, m);
    index := timestamps[m].index;
  }

  /** The first entry after a timestamp, found by walking from any entry. */
  method Walk(timestamps: seq<TimestampIndex>, timestamp: nat, ghost size: nat, start: nat) returns (m: nat)
    requires IsLog(timestamps, size) && start < |timestamps|
    requires timestamps[|timestamps| - 1].timestamp > timestamp
    ensures m < |timestamps| && timestamps[m].timestamp > timestamp
    ensures forall i :: 0 <= i < m ==> timestamps[i].timestamp <= timestamp
  {
    m := start;
    if timestamps[m].timestamp > timestamp {
      while m > 0 && timestamps[m - 1].timestamp > timestamp
        invariant m < |timestamps| && timestamps[m].timestamp > timestamp
      {
        m := m - 1;
      }
    } else {
      while m < |timestamps| - 1 && timestamps[m].timestamp <= timestamp
        invariant m < |timestamps|
        invariant m > 0 ==> timestamps[m - 1].timestamp <= timestamp
      {
        m := m + 1;
      }
    }
    assert timestamps[m].timestamp > timestamp;
  }
}
