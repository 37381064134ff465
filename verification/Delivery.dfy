/** Whole runs of one server and any number of clients: reports in two phases, polls that
    may break off, in any interleaving (server.cpp, client.cpp). */
module Delivery {
  import opened Wrappers
  import opened Coverages
  import opened Codec
  import opened ServerLogs
  import opened UpdateStreams
  import opened CoverageServers
  import opened CoverageClients

  type Client = nat

  /** A client sends its coverage; a client that was told to go on sends its samples; a
      client polls, and the whole reply or only its first bytes arrive. */
  datatype Event =
    | Ask(client: Client, coverage: Coverage)
    | Upload(client: Client, samples: seq<string>)
    | Poll(client: Client, cut: Option<nat>)

  // ---------- Reports ----------

  /** Between its two phases a report holds the coverage that was new at the first check. */
  datatype Reports = Reports(server: ServerState, pending: map<Client, Coverage>)

  function ReportStep(r: Reports, e: Event): Reports {
    match e
    case Ask(c, coverage) =>
      var added := Difference(r.server.totalCoverage, coverage);
      if added == {} then r.(pending := r.pending - {c}) else r.(pending := r.pending[c := added])
    case Upload(c, samples) =>
      if c in r.pending
      then Reports(AfterReport(r.server, r.pending[c], samples), r.pending - {c})
      else r
    case Poll(_, _) => r
  }

  function ReportRun(run: seq<Event>): Reports {
    if run == [] then Reports(EMPTY, map[]) else ReportStep(ReportRun(run[..|run| - 1]), run[|run| - 1])
  }

  /** A server without the first check: an upload commits all that its client had sent. */
  function AtomicStep(r: Reports, e: Event): Reports {
    match e
    case Ask(c, coverage) => r.(pending := r.pending[c := coverage])
    case Upload(c, samples) =>
      if c in r.pending
      then Reports(AfterReport(r.server, r.pending[c], samples), r.pending - {c})
      else r
    case Poll(_, _) => r
  }

  function AtomicRun(run: seq<Event>): Reports {
    if run == [] then Reports(EMPTY, map[]) else AtomicStep(AtomicRun(run[..|run| - 1]), run[|run| - 1])
  }

  /** What the first check dropped from a report was covered then, and so it still is. */
  ghost predicate Refines(two: Reports, one: Reports) {
    && two.server == one.server
    && two.pending.Keys <= one.pending.Keys
    && forall c :: c in one.pending ==>
         if c in two.pending
         then Difference(two.server.totalCoverage, two.pending[c]) == Difference(two.server.totalCoverage, one.pending[c])
         else one.pending[c] <= one.server.totalCoverage
  }

  /** The stale difference commits the same as the full coverage. */
  lemma {:induction false} TwoPhasesRefineOne(run: seq<Event>)
    ensures Refines(ReportRun(run), AtomicRun(run))
  {
    if run != [] {
      TwoPhasesRefineOne(run[..|run| - 1]);
      StepsRefine(ReportRun(run[..|run| - 1]), AtomicRun(run[..|run| - 1]), run[|run| - 1]);
    }
  }

  lemma StepsRefine(two: Reports, one: Reports, e: Event)
    requires Refines(two, one)
    ensures Refines(ReportStep(two, e), AtomicStep(one, e))
  {
    var two', one' := ReportStep(two, e), AtomicStep(one, e);
    match e {
      case Poll(_, _) =>
      case Ask(c, coverage) =>
        NothingNew(two.server.totalCoverage, coverage);
      case Upload(c, samples) =>
        var total, total' := two.server.totalCoverage, two'.server.totalCoverage;
        if c in one.pending && c !in two.pending {
          NothingNew(total, one.pending[c]);
        }
        assert total <= total' && two'.server == one'.server;
        forall d | d in two.pending
          ensures Difference(total', two.pending[d]) == Difference(total', one.pending[d])
        {
          StillSame(total, total', two.pending[d], one.pending[d]);
        }
    }
  }

  // ---------- What the events themselves say ----------

  /** The coverage that a client sent last, if it did not upload since. */
  function LastAsked(run: seq<Event>, c: Client): Option<Coverage> {
    if run == [] then None
    else
      var before, e := run[..|run| - 1], run[|run| - 1];
      if e.Ask? && e.client == c then Some(e.coverage)
      else if e.Upload? && e.client == c then None
      else LastAsked(before, c)
  }

  /** All coverage that clients sent and followed by an upload. */
  function Covered(run: seq<Event>): Coverage {
    if run == [] then {}
    else
      var before, e := run[..|run| - 1], run[|run| - 1];
      Covered(before) + if e.Upload? && LastAsked(before, e.client).Some? then LastAsked(before, e.client).value else {}
  }

  /** The upload `e` after `before` comes from a client with coverage that no upload before
      it had. */
  predicate BringsNew(before: seq<Event>, e: Event) {
    e.Upload? && LastAsked(before, e.client).Some? && !(LastAsked(before, e.client).value <= Covered(before))
  }

  /** The samples of all uploads that bring new coverage, in order. */
  function Uploaded(run: seq<Event>): seq<string> {
    if run == [] then []
    else
      var before, e := run[..|run| - 1], run[|run| - 1];
      Uploaded(before) + if BringsNew(before, e) then e.samples else []
  }

  lemma {:induction false} AtomicRunIs(run: seq<Event>)
    ensures var r := AtomicRun(run);
            && (forall c :: c in r.pending <==> LastAsked(run, c).Some?)
            && (forall c :: c in r.pending ==> r.pending[c] == LastAsked(run, c).value)
            && r.server.totalCoverage == Covered(run) && r.server.samples == Uploaded(run)
  {
    if run != [] {
      var before, e := run[..|run| - 1], run[|run| - 1];
      AtomicRunIs(before);
      if e.Upload? && LastAsked(before, e.client).Some? {
        NothingNew(Covered(before), LastAsked(before, e.client).value);
      }
    }
  }

  /** The server covers what the uploads bring, and its corpus are the samples of exactly
      those that brought something new. */
  lemma ServerHasUploads(run: seq<Event>)
    ensures ReportRun(run).server.totalCoverage == Covered(run)
    ensures ReportRun(run).server.samples == Uploaded(run)
  {
    AtomicRunIs(run);
    TwoPhasesRefineOne(run);
  }

  lemma StillSame(total: Coverage, later: Coverage, a: Coverage, b: Coverage)
    requires total <= later && Difference(total, a) == Difference(total, b)
    ensures Difference(later, a) == Difference(later, b)
  {
    forall x
      ensures x in Difference(later, a) <==> x in Difference(later, b)
    {
      assert x in Difference(total, a) <==> x in Difference(total, b);
    }
  }

  // ---------- Polls ----------

  /** The server, what it committed, and every client that ever polled. */
  datatype System = System(reports: Reports, commits: seq<Commit>, clients: map<Client, ClientState>) {
    function ClientOf(c: Client): ClientState {
      if c in clients then clients[c] else ClientState(0, [])
    }
  }

  function Step(s: System, e: Event): System {
    var after := s.(reports := ReportStep(s.reports, e));
    match e
    case Ask(_, _) => after
    case Upload(c, samples) =>
      if c !in s.reports.pending then after
      else
        var increment := Difference(s.reports.server.totalCoverage, s.reports.pending[c]);
        if increment == {} then after else after.(commits := s.commits + [Commit(increment, samples)])
    case Poll(c, cut) =>
      after.(clients := s.clients[c := AfterPoll(s.ClientOf(c), Arriving(Reply(s, c), cut))])
  }

  function Reply(s: System, c: Client): string {
    Response(s.reports.server, s.ClientOf(c).lastTimestamp)
  }

  function Arriving(reply: string, cut: Option<nat>): string {
    if cut.None? || cut.value >= |reply| then reply else reply[..cut.value]
  }

  function Run(run: seq<Event>): System {
    if run == [] then System(Reports(EMPTY, map[]), [], map[]) else Step(Run(run[..|run| - 1]), run[|run| - 1])
  }

  /** Samples and timestamps fit into their 64-bit fields. */
  ghost predicate Fits(run: seq<Event>) {
    |run| < SIZE_LIMIT && forall e :: e in run && e.Upload? ==> Sized(e.samples)
  }

  ghost predicate Recorded(s: System) {
    && s.reports.server == Replay(s.commits) && Increments(s.commits)
    && s.reports.server.samples == Corpus(s.commits) && Sized(Corpus(s.commits))
  }

  /** The server's state is that of its commits, at most one for each event. */
  lemma {:induction false} RunRecorded(run: seq<Event>)
    requires Fits(run)
    ensures Recorded(Run(run)) && |Run(run).commits| <= |run|
    ensures Run(run).reports == ReportRun(run)
  {
    if run != [] {
      var before, e := run[..|run| - 1], run[|run| - 1];
      RunRecorded(before);
      assert e in run;
      var s := Run(before);
      if e.Upload? && e.client in s.reports.pending {
        ReportCommits(s.commits, s.reports.pending[e.client], e.samples);
        SamplesAreCorpus(Run(run).commits);
      }
    }
  }

  /** The samples of all commits up to the client's timestamp. */
  function Confirmed(s: System, c: Client): seq<string> {
    if s.ClientOf(c).lastTimestamp <= |s.commits|
    then Corpus(s.commits[..s.ClientOf(c).lastTimestamp])
    else []
  }

  lemma Sent(commits: seq<Commit>, timestamp: nat)
    requires timestamp <= |commits| && Sized(Corpus(commits))
    ensures Corpus(commits[..timestamp]) + Unconfirmed(commits, timestamp) == Corpus(commits)
    ensures Sized(Unconfirmed(commits, timestamp))
  {
    CorpusSplits(commits, timestamp);
  }

  /** A complete reply brings the client up to date. */
  lemma CompleteStream(c: ClientState, timestamp: nat, samples: seq<string>)
    requires Sized(samples) && timestamp < SIZE_LIMIT
    ensures SamplesIn(UpdateStream(timestamp, samples)) == samples
    ensures AfterPoll(c, UpdateStream(timestamp, samples)) == ClientState(timestamp, c.received + samples)
  {
    var b := UpdateStream(timestamp, samples);
    WholeStream(samples, "");
    assert SampleMessages(samples) + "" == SampleMessages(samples);
    Pow256Of8();
    ReadsBackSize(timestamp, 8);
    assert b[..8] == U64(timestamp) && b[8..] == SampleMessages(samples);
  }

  /** A reply that breaks off leaves the timestamp, and some samples that will come again:
      at least one exactly when the break comes after the first. */
  lemma BrokenStream(c: ClientState, timestamp: nat, samples: seq<string>, cut: nat)
    requires Sized(samples) && cut < |UpdateStream(timestamp, samples)|
    ensures var b := UpdateStream(timestamp, samples)[..cut];
            && AfterPoll(c, b) == ClientState(c.lastTimestamp, c.received + SamplesIn(b))
            && SamplesIn(b) <= samples
            && (SamplesIn(b) != [] <==> samples != [] && cut >= 17 + |samples[0]|)
  {
    hide SampleMessages, ReceiveSamples, FromLittleEndian, LittleEndian, Sized;
    var b := UpdateStream(timestamp, samples);
    if cut < 8 {
      assert c.received + [] == c.received;
    } else {
      assert b[..cut][8..] == SampleMessages(samples)[..cut - 8];
      CutStream(samples, cut - 8);
      FirstSampleArrivesIff(samples, cut - 8);
    }
  }

  /** The samples in the bytes of a reply that arrive. */
  function SamplesIn(b: string): seq<string> {
    if |b| < 8 then [] else ReceiveSamples(b[8..]).samples
  }

  /** `e` is a poll of client `c`, and breaks off. */
  predicate Breaks(s: System, e: Event, c: Client) {
    IsPollOf(e, c) && e.cut.Some? && e.cut.value < |Reply(s, c)|
  }

  predicate IsPollOf(e: Event, c: Client) {
    e.Poll? && e.client == c
  }

  /** The samples that the poll `e` hands over to its client. */
  function Handed(s: System, e: Event): seq<string>
    requires e.Poll?
  {
    SamplesIn(Arriving(Reply(s, e.client), e.cut))
  }

  /** `e` is a poll of client `c` that breaks off after a whole sample: after the timestamp,
      one message byte, the size and the bytes of the first sample not yet confirmed. */
  ghost predicate BreaksAfterSample(s: System, e: Event, c: Client) {
    && Breaks(s, e, c) && s.ClientOf(c).lastTimestamp <= |s.commits|
    && var rest := Unconfirmed(s.commits, s.ClientOf(c).lastTimestamp);
       rest != [] && e.cut.value >= 17 + |rest[0]|
  }

  /** What one event does to a client: nothing, a complete poll, or a poll that breaks off. */
  lemma ClientStep(s: System, e: Event, c: Client)
    requires Recorded(s) && s.ClientOf(c).lastTimestamp <= |s.commits| < SIZE_LIMIT
    ensures var client, client' := s.ClientOf(c), Step(s, e).ClientOf(c);
            var rest := Unconfirmed(s.commits, client.lastTimestamp);
            if !IsPollOf(e, c) then client' == client
            else if !Breaks(s, e, c) then
              Handed(s, e) == rest && client' == ClientState(|s.commits|, client.received + rest)
            else
              && Handed(s, e) <= rest
              && client' == ClientState(client.lastTimestamp, client.received + Handed(s, e))
              && (Handed(s, e) != [] <==> BreaksAfterSample(s, e, c))
  {
    OnlyPollsChangeClients(s, e, c);
    if IsPollOf(e, c) {
      var client := s.ClientOf(c);
      var t := client.lastTimestamp;
      ResponseIsUnconfirmed(s.commits, t);
      Sent(s.commits, t);
      hide Unconfirmed, Response, AfterPoll, Replay, Corpus, Step, Increments, UpdateStream, SamplesIn;
      if Breaks(s, e, c) {
        BrokenStream(client, |s.commits|, Unconfirmed(s.commits, t), e.cut.value);
      } else {
        CompleteStream(client, |s.commits|, Unconfirmed(s.commits, t));
      }
    }
  }

  lemma OnlyPollsChangeClients(s: System, e: Event, c: Client)
    ensures Step(s, e).ClientOf(c)
            == if IsPollOf(e, c) then AfterPoll(s.ClientOf(c), Arriving(Reply(s, c), e.cut)) else s.ClientOf(c)
  {
  }

  /** The corpus only grows, and what a timestamp confirms never changes. */
  lemma CorpusGrows(s: System, e: Event)
    requires Recorded(s)
    ensures s.commits <= Step(s, e).commits
    ensures s.reports.server.samples <= Step(s, e).reports.server.samples
    ensures e.Poll? ==> Step(s, e).commits == s.commits && Step(s, e).reports.server == s.reports.server
    ensures forall t :: 0 <= t <= |s.commits| ==> Step(s, e).commits[..t] == s.commits[..t]
  {
  }

  lemma WholeCorpus(commits: seq<Commit>)
    ensures Corpus(commits[..|commits|]) == Corpus(commits)
  {
    assert commits[..|commits|] == commits;
  }

  /** The samples a client got from its complete polls. */
  function Got(run: seq<Event>, c: Client): seq<string> {
    if run == [] then []
    else
      var before, e := run[..|run| - 1], run[|run| - 1];
      Got(before, c) + if IsPollOf(e, c) && !Breaks(Run(before), e, c) then Handed(Run(before), e) else []
  }

  /** How many whole samples it got from polls that broke off. */
  function Extra(run: seq<Event>, c: Client): nat {
    if run == [] then 0
    else
      var before, e := run[..|run| - 1], run[|run| - 1];
      Extra(before, c) + if Breaks(Run(before), e, c) then |Handed(Run(before), e)| else 0
  }

  /** In every run, whatever polls break off, the samples of a client's complete polls are
      those of the commits up to its timestamp, which are the first of all that uploads
      brought, in order, without gap or repeat; what else it received are the samples of its
      broken polls. */
  lemma {:induction false} DeliveredExactly(run: seq<Event>, c: Client)
    requires Fits(run)
    ensures var s := Run(run);
            && s.ClientOf(c).lastTimestamp <= |s.commits|
            && Got(run, c) == Corpus(s.commits[..s.ClientOf(c).lastTimestamp]) <= Uploaded(run)
            && |s.ClientOf(c).received| == |Got(run, c)| + Extra(run, c)
            && (Extra(run, c) == 0 ==> s.ClientOf(c).received == Got(run, c))
  {
    if run != [] {
      var before, e := run[..|run| - 1], run[|run| - 1];
      DeliveredExactly(before, c);
      RunRecorded(before);
      RunRecorded(run);
      var s, s' := Run(before), Run(run);
      assert s' == Step(s, e);
      hide Step, Run, Replay, Corpus, Increments, Unconfirmed, Breaks, Handed, BreaksAfterSample;
      ClientStep(s, e, c);
      CorpusGrows(s, e);
      ServerHasUploads(run);
      hide ReportRun, Uploaded, Covered;
      if IsPollOf(e, c) {
        Sent(s.commits, s.ClientOf(c).lastTimestamp);
        WholeCorpus(s.commits);
      }
      CorpusSplits(s'.commits, s'.ClientOf(c).lastTimestamp);
    }
  }

  /** No poll of `c` in the run broke off after a whole sample. */
  ghost predicate NoSampleTwice(run: seq<Event>, c: Client) {
    run != [] ==>
      var before, e := run[..|run| - 1], run[|run| - 1];
      NoSampleTwice(before, c) && !BreaksAfterSample(Run(before), e, c)
  }

  lemma {:induction false} ExtraIff(run: seq<Event>, c: Client)
    requires Fits(run)
    ensures Extra(run, c) == 0 <==> NoSampleTwice(run, c)
  {
    if run != [] {
      var before, e := run[..|run| - 1], run[|run| - 1];
      ExtraIff(before, c);
      DeliveredExactly(before, c);
      RunRecorded(before);
      hide Recorded, Run, BreaksAfterSample, Handed, Step;
      ClientStep(Run(before), e, c);
    }
  }

  /** A client has received the corpus up to its timestamp and nothing else exactly when no
      poll of its own broke off after a whole sample. */
  lemma ReceivedOnceIff(run: seq<Event>, c: Client)
    requires Fits(run)
    ensures Run(run).ClientOf(c).received == Confirmed(Run(run), c) <==> NoSampleTwice(run, c)
  {
    DeliveredExactly(run, c);
    ExtraIff(run, c);
  }

  /** `a` is `b` with some elements left out. */
  ghost predicate Within(a: seq<string>, b: seq<string>) {
    a == [] || (b != [] && (Within(a, b[..|b| - 1])
                            || (a[|a| - 1] == b[|b| - 1] && Within(a[..|a| - 1], b[..|b| - 1]))))
  }

  lemma {:induction false} WithinBoth(a: seq<string>, b: seq<string>, c: seq<string>)
    requires Within(a, b)
    ensures Within(a + c, b + c)
  {
    if c == [] {
      assert a + c == a && b + c == b;
    } else {
      var n := |c| - 1;
      WithinBoth(a, b, c[..n]);
      assert (a + c)[..|a + c| - 1] == a + c[..n] && (b + c)[..|b + c| - 1] == b + c[..n];
    }
  }

  lemma {:induction false} WithinMore(a: seq<string>, b: seq<string>, c: seq<string>)
    requires Within(a, b)
    ensures Within(a, b + c)
  {
    if c == [] {
      assert b + c == b;
    } else {
      WithinMore(a, b, c[..|c| - 1]);
      assert (b + c)[..|b + c| - 1] == b + c[..|c| - 1];
    }
  }

  /** With polls that may break off anywhere, a client still has every sample it confirmed,
      in order, and samples of the corpus only; some may come more than once. */
  lemma {:induction false} NothingLost(run: seq<Event>, c: Client)
    requires Fits(run)
    ensures var s := Run(run);
            s.ClientOf(c).lastTimestamp <= |s.commits|
            && Within(Corpus(s.commits[..s.ClientOf(c).lastTimestamp]), s.ClientOf(c).received)
            && forall x :: x in s.ClientOf(c).received ==> x in Corpus(s.commits)
  {
    if run != [] {
      var before, e := run[..|run| - 1], run[|run| - 1];
      NothingLost(before, c);
      RunRecorded(before);
      RunRecorded(run);
      var s, s' := Run(before), Run(run);
      assert s' == Step(s, e);
      hide Step, Run, Replay, Corpus, Increments, Unconfirmed, Within, Fits, Breaks, Handed, BreaksAfterSample;
      ClientStep(s, e, c);
      CorpusGrows(s, e);
      var client, client' := s.ClientOf(c), s'.ClientOf(c);
      if IsPollOf(e, c) {
        var rest := Unconfirmed(s.commits, client.lastTimestamp);
        Sent(s.commits, client.lastTimestamp);
        if Breaks(s, e, c) {
          WithinMore(Confirmed(s, c), client.received, Handed(s, e));
        } else {
          WithinBoth(Confirmed(s, c), client.received, rest);
          WholeCorpus(s.commits);
        }
      }
    }
  }

  /** A poll whose whole reply arrives brings the client everything that uploads brought. */
  lemma CatchesUp(run: seq<Event>, c: Client)
    requires Fits(run + [Poll(c, None)])
    ensures var s := Run(run + [Poll(c, None)]);
            s.ClientOf(c).lastTimestamp == |s.commits|
            && Within(Uploaded(run), s.ClientOf(c).received)
  {
    var all := run + [Poll(c, None)];
    assert all[..|run|] == run;
    assert Fits(run) by {
      assert forall e :: e in run ==> e in all;
    }
    NothingLost(run, c);
    RunRecorded(run);
    NothingLost(all, c);
    RunRecorded(all);
    ClientStep(Run(run), Poll(c, None), c);
    WholeCorpus(Run(all).commits);
    ServerHasUploads(run);
    hide Run, ReportRun, Uploaded, Within;
    CorpusGrows(Run(run), Poll(c, None));
  }

  lemma RunMore(run: seq<Event>, e: Event)
    ensures Run(run + [e]) == Step(Run(run), e)
  {
    assert (run + [e])[..|run|] == run;
  }

  lemma OneCommit(x: string, offset: (string, nat))
    ensures Run([Ask(0, {offset}), Upload(0, [x])])
            == System(Reports(ServerState({offset}, 1, [x], [TimestampIndex(1, 0)]), map[]), [Commit({offset}, [x])], map[])
  {
    var asked := [Ask(0, {offset})];
    assert asked == [] + asked && asked + [Upload(0, [x])] == [Ask(0, {offset}), Upload(0, [x])];
    assert Difference({}, {offset}) == {offset};
    RunMore([], Ask(0, {offset}));
    assert Run(asked) == System(Reports(EMPTY, map[0 := {offset}]), [], map[]);
    RunMore(asked, Upload(0, [x]));
    hide Run;
    var s := Step(Run(asked), Upload(0, [x]));
    assert s.reports.pending == map[];
    assert s.reports.server == ServerState({offset}, 1, [x], [TimestampIndex(1, 0)]);
  }

  /** Repeats do happen: a reply that breaks off before its last byte. */
  lemma SampleTwice(x: string, offset: (string, nat))
    requires |x| < SIZE_LIMIT
    ensures exists run :: Fits(run) && Run(run).reports.server.samples == [x] && Run(run).ClientOf(1).received == [x, x]
  {
    hide Run, Response, UpdateStream, AfterPoll, ReportStep, SamplesIn;
    var committed := [Ask(0, {offset}), Upload(0, [x])];
    OneCommit(x, offset);
    var s := Run(committed);
    var cut := 17 + |x|;
    OneSampleReply(s.reports.server, x);
    BrokenStream(ClientState(0, []), 1, [x], cut);
    var once := committed + [Poll(1, Some(cut))];
    RunMore(committed, Poll(1, Some(cut)));
    PollChangesNoReport(s.reports, 1, Some(cut));
    var t := Run(once);
    assert t.reports == s.reports && t.ClientOf(1) == ClientState(0, [x]);
    PollAgain(t, x);
    var run := once + [Poll(1, None)];
    RunMore(once, Poll(1, None));
    assert Fits(run);
  }

  lemma PollAgain(t: System, x: string)
    requires |x| < SIZE_LIMIT && t.ClientOf(1) == ClientState(0, [x])
    requires t.reports.server.samples == [x] && t.reports.server.timestamps == [TimestampIndex(1, 0)]
    requires t.reports.server.serverTimestamp == 1
    ensures Step(t, Poll(1, None)).ClientOf(1).received == [x, x]
    ensures Step(t, Poll(1, None)).reports == t.reports
  {
    hide Response, UpdateStream, AfterPoll, SamplesIn;
    OneSampleReply(t.reports.server, x);
    CompleteStream(ClientState(0, [x]), 1, [x]);
  }

  lemma PollChangesNoReport(r: Reports, c: Client, cut: Option<nat>)
    ensures ReportStep(r, Poll(c, cut)) == r
  {
  }

  lemma OneSampleReply(s: ServerState, x: string)
    requires s.samples == [x] && s.timestamps == [TimestampIndex(1, 0)] && s.serverTimestamp == 1
    ensures Response(s, 0) == UpdateStream(1, [x]) && |UpdateStream(1, [x])| == 18 + |x|
  {
    assert [x][0..] == [x];
    assert SampleMessages([x]) == "S" + EncodeString(x) + SampleMessages([x][1..]);
  }
}
