/** The coverage server's critical sections (server.cpp). */
module CoverageServers {
  import opened Coverages
  import opened Codec
  import opened ServerLogs
  import opened UpdateStreams

  /** The reply to a client that knows the server's state up to `timestamp`. */
  function Response(s: ServerState, timestamp: nat): string {
    var first := FirstIndexAfter(s.timestamps, timestamp, |s.samples|);
    UpdateStream(s.serverTimestamp,
      if timestamp >= s.serverTimestamp || first >= |s.samples| then [] else s.samples[first..])
  }

  /** The samples of the commits that a client with this timestamp has not confirmed. */
  function Unconfirmed(commits: seq<Commit>, timestamp: nat): seq<string>
    requires timestamp <= |commits|
  {
    Corpus(commits[timestamp..])
  }

  lemma ResponseIsUnconfirmed(commits: seq<Commit>, timestamp: nat)
    ensures Response(Replay(commits), timestamp)
            == UpdateStream(|commits|, if timestamp <= |commits| then Unconfirmed(commits, timestamp) else [])
  {
    hide Replay, Corpus, UpdateStream, FirstIndexAfter, IsLog;
    ReplayIsLog(commits);
    if timestamp >= |commits| {
      NothingUnconfirmed(commits);
    } else {
      UnconfirmedFrom(commits, timestamp);
    }
  }

  lemma NothingUnconfirmed(commits: seq<Commit>)
    ensures Unconfirmed(commits, |commits|) == []
  {
  }

  lemma UnconfirmedFrom(commits: seq<Commit>, timestamp: nat)
    requires timestamp <= |commits|
    ensures var s := Replay(commits);
            var first := FirstIndexAfter(s.timestamps, timestamp, |s.samples|);
            first <= |s.samples| && Unconfirmed(commits, timestamp) == s.samples[first..]
  {
    SamplesAreCorpus(commits);
    IndexSplitsCorpus(commits, timestamp);
    CorpusSplits(commits, timestamp);
  }

  lemma EmptyMessages(samples: seq<string>)
    requires samples == []
    ensures SampleMessages(samples) == "N"
  {
  }

  /** One more sample message, as the loop of the server sends it. */
  lemma SendsOneMore(stream: string, samples: seq<string>, i: nat)
    requires i < |samples|
    ensures stream + SampleMessages(samples[i..])
            == stream + "S" + EncodeString(samples[i]) + SampleMessages(samples[i + 1..])
  {
    assert samples[i..][1..] == samples[i + 1..];
    hide EncodeString;
    var a, b := EncodeString(samples[i]), SampleMessages(samples[i + 1..]);
    assert stream + ("S" + a + b) == stream + "S" + a + b;
  }

  class CoverageServer {
    var totalCoverage: Coverage
    var serverTimestamp: nat
    var samples: seq<string>
    var timestamps: seq<TimestampIndex>
    var numSamples: nat
    ghost var commits: seq<Commit>

    constructor ()
      ensures Valid() && State() == EMPTY && commits == []
    {
      totalCoverage, serverTimestamp, samples, timestamps, numSamples := {}, 0, [], [], 0;
      commits := [];
    }

    ghost function State(): ServerState
      reads this
    {
      ServerState(totalCoverage, serverTimestamp, samples, timestamps)
    }

    ghost predicate Valid()
      reads this
    {
      State() == Replay(commits) && Increments(commits) && numSamples == |samples|
    }

    /** First check, under the read lock. */
    method HasNewCoverage(clientCoverage: Coverage) returns (isNew: bool, newCoverage: Coverage)
      ensures newCoverage == Difference(totalCoverage, clientCoverage)
      ensures isNew <==> !(clientCoverage <= totalCoverage)
    {
      newCoverage := Difference(totalCoverage, clientCoverage);
      isNew := newCoverage != {};
      NothingNew(totalCoverage, clientCoverage);
    }

    /** Second check, under the write lock. */
    method OnNewCoverage(clientCoverage: Coverage) returns (isNew: bool)
      modifies this`serverTimestamp, this`totalCoverage
      ensures isNew <==> !(clientCoverage <= old(totalCoverage))
      ensures totalCoverage == old(totalCoverage) + clientCoverage
      ensures serverTimestamp == old(serverTimestamp) + if isNew then 1 else 0
    {
      var newClientCoverage := Difference(totalCoverage, clientCoverage);
      NothingNew(totalCoverage, clientCoverage);
      if newClientCoverage == {} {
        return false;
      }
      serverTimestamp := serverTimestamp + 1;
      totalCoverage := totalCoverage + newClientCoverage;
      return true;
    }

    /** The write section of a report. */
    method AcceptReport(newClientCoverage: Coverage, newSamples: seq<string>)
      requires Valid()
      modifies this
      ensures Valid() && State() == AfterReport(old(State()), newClientCoverage, newSamples)
      ensures commits == if newClientCoverage <= old(totalCoverage) then old(commits)
                         else old(commits) + [Commit(Difference(old(totalCoverage), newClientCoverage), newSamples)]
      ensures samples == old(samples) + if newClientCoverage <= old(totalCoverage) then [] else newSamples
      ensures samples == Corpus(commits)
    {
      hide Replay, Corpus, Increments;
      ghost var before, increment := State(), Difference(totalCoverage, newClientCoverage);
      ReportCommits(commits, newClientCoverage, newSamples);
      SamplesAreCorpus(commits);
      SamplesAreCorpus(commits + [Commit(increment, newSamples)]);
      NothingNew(totalCoverage, newClientCoverage);
      var isNew := OnNewCoverage(newClientCoverage);
      if !isNew {
        return;
      }
      assert totalCoverage == before.totalCoverage + increment;
      commits := commits + [Commit(increment, newSamples)];
      if newSamples != [] {
        timestamps := timestamps + [TimestampIndex(serverTimestamp, |samples|)];
      }
      PushSamples(newSamples);
      numSamples := |samples|;
    }

    method PushSamples(newSamples: seq<string>)
      modifies this`samples
      ensures samples == old(samples) + newSamples
    {
      for i := 0 to |newSamples|
        invariant samples == old(samples) + newSamples[..i]
      {
        samples := samples + [newSamples[i]];
      }
    }

    /** The read section of a poll; the bytes sent. */
    method ServeUpdates(timestamp: nat) returns (stream: string)
      requires Valid()
      ensures stream == Response(State(), timestamp)
      ensures stream == UpdateStream(|commits|, if timestamp <= |commits| then Unconfirmed(commits, timestamp) else [])
    {
      hide Increments, Replay, IsLog, FirstIndexAfter, EncodeString, LittleEndian, Unconfirmed;
      ReplayIsLog(commits);
      ResponseIsUnconfirmed(commits, timestamp);
      stream := U64(serverTimestamp);
      if timestamp >= serverTimestamp {
        EmptyMessages([]);
        return stream + "N";
      }
      UnconfirmedFrom(commits, timestamp);
      var firstIndex, _ := GetIndex(timestamps, timestamp, |samples|);
      if firstIndex >= |samples| {
        EmptyMessages(samples[firstIndex..]);
        return stream + "N";
      }
      var messages := SendSamples(firstIndex);
      return stream + messages;
    }

    method SendSamples(firstIndex: nat) returns (messages: string)
      requires firstIndex <= |samples|
      ensures messages == SampleMessages(samples[firstIndex..])
    {
      hide *;
      messages := "";
      for i := firstIndex to |samples|
        invariant messages + SampleMessages(samples[i..]) == SampleMessages(samples[firstIndex..])
      {
        SendsOneMore(messages, samples, i);
        messages := messages + "S" + EncodeString(samples[i]);
      }
      EmptyMessages(samples[|samples|..]);
      messages := messages + "N";
    }
  }
}

/** The client's half of a poll (client.cpp). */
module CoverageClients {
  import opened Codec
  import opened Wrappers
  import opened UpdateStreams

  /** What the client remembers, and every sample it was handed. */
  datatype ClientState = ClientState(lastTimestamp: nat, received: seq<string>)

  function AfterPoll(c: ClientState, b: string): ClientState {
    if |b| < 8 then c
    else
      var r := ReceiveSamples(b[8..]);
      ClientState(if r.complete then FromLittleEndian(b[..8]) else c.lastTimestamp, c.received + r.samples)
  }

  /** A connection: the bytes that arrive before it closes. */
  class Connection {
    const data: string
    var position: nat

    constructor (data: string)
      ensures this.data == data && position == 0 && Valid()
    {
      this.data, position := data, 0;
    }

    ghost predicate Valid()
      reads this
    {
      position <= |data|
    }

    ghost function Rest(): string
      requires Valid()
      reads this
    {
      data[position..]
    }

    /** All `size` bytes, or failure. */
    method Read(size: nat) returns (ok: bool, bytes: string)
      requires Valid()
      modifies this`position
      ensures Valid() && (ok <==> size <= |old(Rest())|)
      ensures ok ==> bytes == old(Rest())[..size] && Rest() == old(Rest())[size..]
    {
      if size > |data| - position {
        position := |data|;
        return false, "";
      }
      bytes := data[position..position + size];
      position := position + size;
      return true, bytes;
    }

    method ReceiveSample() returns (r: Option<string>)
      requires Valid()
      modifies this`position
      ensures Valid()
      ensures match DecodeString(old(Rest()))
              case None => r == None
              case Some((sample, rest)) => r == Some(sample) && Rest() == rest
    {
      var ok, size := Read(8);
      if !ok {
        return None;
      }
      var bytes;
      ghost var rest := Rest();
      assert forall n: nat :: 8 + n <= 8 + |rest| ==> old(Rest())[8..8 + n] == rest[..n] && old(Rest())[8 + n..] == rest[n..];
      ok, bytes := Read(FromLittleEndian(size));
      return if ok then Some(bytes) else None;
    }
  }

  lemma NothingArrived(b: string)
    requires b == ""
    ensures ReceiveSamples(b) == Received([], false)
  {
  }

  /** One more message, as the loop of the client reads it. */
  lemma ReceivesOneMore(got: seq<string>, b: string)
    requires b != ""
    ensures b[0] == 'N' ==> ReceiveSamples(b) == Received([], true)
    ensures b[0] != 'N' && b[0] != 'S' ==> ReceiveSamples(b) == Received([], false)
    ensures b[0] == 'S' && DecodeString(b[1..]).None? ==> ReceiveSamples(b) == Received([], false)
    ensures b[0] == 'S' && DecodeString(b[1..]).Some? ==>
              var (sample, rest) := DecodeString(b[1..]).value;
              var r := ReceiveSamples(rest);
              |rest| < |b| && ReceiveSamples(b).complete == r.complete
              && got + ReceiveSamples(b).samples == got + [sample] + r.samples
  {
    if b[0] == 'S' && DecodeString(b[1..]).Some? {
      var (sample, rest) := DecodeString(b[1..]).value;
      hide DecodeString;
      assert got + ([sample] + ReceiveSamples(rest).samples) == got + [sample] + ReceiveSamples(rest).samples;
    }
  }

  class CoverageClient {
    var lastTimestamp: nat
    var numSamples: nat
    const keepSamplesInMemory: bool

    constructor (keepSamplesInMemory: bool)
      ensures lastTimestamp == 0 && numSamples == 0
    {
      this.keepSamplesInMemory := keepSamplesInMemory;
      lastTimestamp, numSamples := 0, 0;
    }

    /** Reads the server's reply.  The samples read so far are kept when the connection
        breaks; the timestamp moves only when the reply was complete. */
    method GetUpdates(connection: Connection) returns (ok: bool, newSamples: seq<string>)
      requires connection.Valid()
      modifies this`lastTimestamp, this`numSamples, connection`position
      ensures ClientState(lastTimestamp, newSamples)
              == old(AfterPoll(ClientState(lastTimestamp, []), connection.Rest()))
      ensures ok <==> |old(connection.Rest())| >= 8 && ReceiveSamples(old(connection.Rest())[8..]).complete
      ensures numSamples == old(numSamples) + if keepSamplesInMemory then 0 else |newSamples|
    {
      newSamples := [];
      var read, timestamp := connection.Read(8);
      if !read {
        return false, [];
      }
      ghost var stream := connection.Rest();
      hide ReceiveSamples, DecodeString, FromLittleEndian;
      while true
        invariant connection.Valid()
        invariant ReceiveSamples(stream)
                  == Received(newSamples + ReceiveSamples(connection.Rest()).samples, ReceiveSamples(connection.Rest()).complete)
        invariant lastTimestamp == old(lastTimestamp)
        invariant numSamples == old(numSamples) + if keepSamplesInMemory then 0 else |newSamples|
        decreases |connection.Rest()|
      {
        ghost var before := connection.Rest();
        var reply;
        read, reply := connection.Read(1);
        if !read {
          NothingArrived(before);
          return false, newSamples;
        }
        assert reply[0] == before[0];
        ReceivesOneMore(newSamples, before);
        if reply[0] == 'N' {
          break;
        } else if reply[0] == 'S' {
          assert connection.Rest() == before[1..];
          var sample := connection.ReceiveSample();
          if sample.None? {
            return false, newSamples;
          }
          if !keepSamplesInMemory {
            numSamples := numSamples + 1;
          }
          newSamples := newSamples + [sample.value];
        } else {
          return false, newSamples;
        }
      }
      lastTimestamp := FromLittleEndian(timestamp);
      return true, newSamples;
    }
  }
}
