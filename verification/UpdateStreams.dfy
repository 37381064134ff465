/** What the server writes to a client that asks for updates, and what the client makes of
    the bytes that reach it (server.cpp, ServeUpdates; client.cpp, GetUpdates). */
module UpdateStreams {
  import opened Wrappers
  import opened Codec

  /** One message 'S' with its sample each, then 'N'. */
  function SampleMessages(samples: seq<string>): string {
    if samples == [] then "N" else "S" + EncodeString(samples[0]) + SampleMessages(samples[1..])
  }

  function UpdateStream(timestamp: nat, samples: seq<string>): string {
    U64(timestamp) + SampleMessages(samples)
  }

  /** How many bytes the first `i` samples take: a message byte, a size and the sample each. */
  function BytesOf(samples: seq<string>, i: nat): nat
    requires i <= |samples|
  {
    if i == 0 then 0 else BytesOf(samples, i - 1) + 9 + |samples[i - 1]|
  }

  lemma {:induction false} BytesRest(samples: seq<string>, i: nat)
    requires 0 < i <= |samples|
    ensures BytesOf(samples, i) == 9 + |samples[0]| + BytesOf(samples[1..], i - 1)
  {
    if i > 1 {
      BytesRest(samples, i - 1);
    }
  }

  /** At `at` is the message with this sample, an 'S', its size and its bytes, or the last
      message, an 'N'. */
  ghost predicate HasMessage(b: string, at: nat, message: Option<string>) {
    && at < |b|
    && match message
       case None => b[at] == 'N'
       case Some(x) => b[at] == 'S' && at + 9 + |x| <= |b| && HasSizeAt(b, at + 1, |x|) && b[at + 9..at + 9 + |x|] == x
  }

  function MessageOf(samples: seq<string>, i: nat): Option<string> {
    if i < |samples| then Some(samples[i]) else None
  }

  /** The layout of a reply: every sample is where those before it end, and after the last one
      is the last message. */
  lemma {:induction false} MessageAt(samples: seq<string>, i: nat)
    requires i <= |samples|
    ensures |SampleMessages(samples)| == BytesOf(samples, |samples|) + 1
    ensures HasMessage(SampleMessages(samples), BytesOf(samples, i), MessageOf(samples, i))
  {
    hide SampleMessages, HasMessage, MessageOf, BytesOf;
    NoBytes(samples);
    if samples == [] {
      NoMessage(samples);
    } else {
      var rest := samples[1..];
      FirstMessage(samples);
      BytesRest(samples, |samples|);
      MessageAt(rest, if i == 0 then 0 else i - 1);
      if i > 0 {
        BytesRest(samples, i);
        LaterMessage(samples, i);
        MessageMoves(
          SampleMessages(samples), SampleMessages(rest), 9 + |samples[0]|, BytesOf(rest, i - 1), MessageOf(samples, i));
      }
    }
  }

  lemma LaterMessage(samples: seq<string>, i: nat)
    requires 0 < i && samples != []
    ensures MessageOf(samples, i) == MessageOf(samples[1..], i - 1)
  {
  }

  lemma NoMessage(samples: seq<string>)
    requires samples == []
    ensures SampleMessages(samples) == "N" && HasMessage("N", 0, MessageOf(samples, 0))
  {
  }

  lemma NoBytes(samples: seq<string>)
    ensures BytesOf(samples, 0) == 0
  {
  }

  lemma FirstMessage(samples: seq<string>)
    requires samples != []
    ensures var b, n := SampleMessages(samples), |samples[0]|;
            && |b| == 9 + n + |SampleMessages(samples[1..])| && b[9 + n..] == SampleMessages(samples[1..])
            && HasMessage(b, 0, MessageOf(samples, 0))
  {
    hide U64, HasSizeAt;
    var size, rest := U64(|samples[0]|), SampleMessages(samples[1..]);
    var b := SampleMessages(samples);
    assert b == "S" + (size + samples[0]) + rest;
    hide SampleMessages;
    assert b == "S" + size + (samples[0] + rest);
    SizeAt("S", |samples[0]|, samples[0] + rest);
  }

  /** What stands in `rest` stands in `b` after the bytes before `rest`. */
  lemma MessageMoves(b: string, rest: string, from: nat, at: nat, message: Option<string>)
    requires from <= |b| && b[from..] == rest && HasMessage(rest, at, message)
    ensures HasMessage(b, from + at, message)
  {
    hide HasSizeAt;
    assert b == b[..from] + rest && b[from + at] == rest[at];
    if message.Some? {
      SizeMoves(b[..from], rest, at + 1, |message.value|);
    }
  }

  lemma SizeMoves(before: string, b: string, at: nat, n: nat)
    ensures HasSizeAt(b, at, n) ==> HasSizeAt(before + b, |before| + at, n)
  {
    hide Pow256;
    if HasSizeAt(b, at, n) {
      forall k | 0 <= k < 8
        ensures (before + b)[|before| + at + k] as int == (n / Pow256(k)) % 256
      {
        assert (before + b)[|before| + (at + k)] == b[at + k];
      }
    }
  }

  ghost predicate Sized(samples: seq<string>) {
    forall s :: s in samples ==> |s| < SIZE_LIMIT
  }

  datatype Received = Received(samples: seq<string>, complete: bool)

  function ReceiveSamples(b: string): Received
    decreases |b|
  {
    if b == "" then Received([], false)
    else if b[0] == 'N' then Received([], true)
    else if b[0] != 'S' then Received([], false)
    else match DecodeString(b[1..])
      case None => Received([], false)
      case Some((sample, rest)) =>
        var r := ReceiveSamples(rest);
        Received([sample] + r.samples, r.complete)
  }

  /** All samples arrive when all bytes do. */
  lemma {:induction false} WholeStream(samples: seq<string>, rest: string)
    requires Sized(samples)
    ensures ReceiveSamples(SampleMessages(samples) + rest) == Received(samples, true)
  {
    hide EncodeString, DecodeString;
    var b := SampleMessages(samples) + rest;
    if samples == [] {
      assert b[0] == 'N';
    } else {
      var sample, tail := EncodeString(samples[0]), SampleMessages(samples[1..]);
      WholeStream(samples[1..], rest);
      DecodeEncodedString(samples[0], tail + rest);
      Joined("S", sample, tail, rest);
      assert samples == [samples[0]] + samples[1..];
    }
  }

  /** Of any bytes the client makes a complete reply exactly when they start with the messages of
      the samples that it gets. */
  lemma {:induction false} CompleteIff(b: string, samples: seq<string>)
    requires IsBytes(b)
    ensures ReceiveSamples(b) == Received(samples, true)
            <==> Sized(samples) && exists rest :: b == SampleMessages(samples) + rest
    decreases |b|
  {
    if Sized(samples) {
      if rest :| b == SampleMessages(samples) + rest {
        WholeStream(samples, rest);
      }
    }
    if ReceiveSamples(b) == Received(samples, true) {
      var rest := CompleteIs(b, samples);
    }
  }

  lemma {:induction false} CompleteIs(b: string, samples: seq<string>) returns (rest: string)
    requires IsBytes(b) && ReceiveSamples(b) == Received(samples, true)
    ensures Sized(samples) && b == SampleMessages(samples) + rest
    decreases |b|
  {
    hide DecodeString, EncodeString;
    rest := b[1..];
    if b[0] == 'N' {
      assert b == [b[0]] + rest;
    } else {
      assert IsBytes(b[1..]);
      var (sample, tail) := DecodeString(b[1..]).value;
      EncodeDecodedString(b[1..], sample, tail);
      IsBytesConcat(EncodeString(sample), tail);
      rest := CompleteIs(tail, samples[1..]);
      assert samples == [sample] + samples[1..];
      assert b == "S" + (EncodeString(sample) + tail);
      Rejoined("S", EncodeString(sample), SampleMessages(samples[1..]), rest);
    }
  }

  lemma Rejoined(s: string, a: string, b: string, c: string)
    ensures s + (a + (b + c)) == s + a + b + c
  {
  }

  lemma Joined(s: string, a: string, b: string, c: string)
    requires |s| == 1
    ensures (s + a + b + c)[0] == s[0] && (s + a + b + c)[1..] == a + (b + c)
  {
  }

  /** A stream that breaks off, read up to its first message. */
  lemma FirstMessageCut(samples: seq<string>, cut: nat)
    requires samples != [] && |samples[0]| < SIZE_LIMIT && 0 < cut <= |SampleMessages(samples)|
    ensures var b, size := SampleMessages(samples)[..cut], 9 + |samples[0]|;
            && b[0] == 'S' && |SampleMessages(samples)| == size + |SampleMessages(samples[1..])|
            && DecodeString(b[1..]) == if cut < size then None
                                       else Some((samples[0], SampleMessages(samples[1..])[..cut - size]))
  {
    var sample, tail := EncodeString(samples[0]), SampleMessages(samples[1..]);
    assert SampleMessages(samples) == "S" + sample + tail && |sample| == 8 + |samples[0]|;
    hide SampleMessages, EncodeString, DecodeString;
    if cut - 1 < |sample| {
      CutInside("S", sample, tail, cut);
      BrokenString(samples[0], cut - 1);
    } else {
      CutBeyond("S", sample, tail, cut);
      DecodeEncodedString(samples[0], tail[..cut - 1 - |sample|]);
    }
  }

  lemma CutInside(s: string, a: string, b: string, cut: nat)
    requires |s| == 1 && 0 < cut <= |a|
    ensures (s + a + b)[..cut][0] == s[0] && (s + a + b)[..cut][1..] == a[..cut - 1]
  {
  }

  lemma CutBeyond(s: string, a: string, b: string, cut: nat)
    requires |s| == 1 && |a| < cut <= 1 + |a| + |b|
    ensures (s + a + b)[..cut][0] == s[0] && (s + a + b)[..cut][1..] == a + b[..cut - 1 - |a|]
  {
  }

  /** From a stream that breaks off the client gets some of the first samples, and knows
      that there may be more. */
  lemma {:induction false} CutStream(samples: seq<string>, cut: nat)
    requires Sized(samples) && cut < |SampleMessages(samples)|
    ensures var r := ReceiveSamples(SampleMessages(samples)[..cut]);
            r.samples <= samples && !r.complete
  {
    if samples != [] && cut > 0 {
      hide DecodeString, EncodeString;
      FirstMessageCut(samples, cut);
      if cut >= 9 + |samples[0]| {
        CutStream(samples[1..], cut - 9 - |samples[0]|);
        assert samples == [samples[0]] + samples[1..];
      }
    }
  }

  /** Of a stream that breaks off the first sample arrives exactly when the break comes
      after it. */
  lemma FirstSampleArrivesIff(samples: seq<string>, cut: nat)
    requires Sized(samples) && cut < |SampleMessages(samples)|
    ensures ReceiveSamples(SampleMessages(samples)[..cut]).samples != []
            <==> samples != [] && cut >= 9 + |samples[0]|
  {
    if samples != [] && cut > 0 {
      hide DecodeString, EncodeString, SampleMessages;
      FirstMessageCut(samples, cut);
    }
  }

  lemma BrokenString(s: string, cut: nat)
    requires |s| < SIZE_LIMIT && cut < |EncodeString(s)|
    ensures DecodeString(EncodeString(s)[..cut]) == None
  {
    if cut >= 8 {
      Pow256Of8();
      ReadsBackSize(|s|, 8);
      assert EncodeString(s)[..cut][..8] == U64(|s|);
    }
  }
}
