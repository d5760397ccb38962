// InMemoryNetwork (apps/peerbit-org/src/sim/inmemory-libp2p.ts): the parsers of all outbound
// streams and the traffic counters.
module Network {
  import opened FrameParser

  // A report of onFrameSent: the stream and the frame.
  datatype Report = Report(stream: string, frame: Frame)

  function Count(sent: seq<Report>, t: FrameType): nat {
    if sent == [] then 0 else Count(sent[..|sent| - 1], t) + (if sent[|sent| - 1].frame.frameType == t then 1 else 0)
  }

  function Tagged(stream: string, frames: seq<Frame>): seq<Report> {
    seq(|frames|, i requires 0 <= i < |frames| => Report(stream, frames[i]))
  }

  // The frames reported for one stream.
  function OnStream(sent: seq<Report>, stream: string): seq<Frame> {
    if sent == [] then []
    else
      var front, last := OnStream(sent[..|sent| - 1], stream), sent[|sent| - 1];
      if last.stream == stream then front + [last.frame] else front
  }

  datatype Metrics = Metrics(bytesSent: nat, framesSent: nat, dataFramesSent: nat, ackFramesSent: nat,
                             goodbyeFramesSent: nat, otherFramesSent: nat)

  // The counters agree with what was reported.
  ghost predicate Counted(m: Metrics, sent: seq<Report>) {
    && m.framesSent == |sent|
    && m.dataFramesSent == Count(sent, Data) && m.ackFramesSent == Count(sent, Ack)
    && m.goodbyeFramesSent == Count(sent, Goodbye) && m.otherFramesSent == Count(sent, Other)
  }

  // How many reported frames start with this byte.
  function CountFirst(sent: seq<Report>, b: bv8): nat {
    if sent == [] then 0
    else
      var payload := sent[|sent| - 1].frame.payload;
      CountFirst(sent[..|sent| - 1], b) + (if payload != [] && payload[0] == b then 1 else 0)
  }

  ghost predicate Typed(sent: seq<Report>) { forall r :: r in sent ==> TypedByFirstByte(r.frame) }

  // The counters read off the bytes that were sent.
  ghost predicate CountsFirstBytes(m: Metrics, sent: seq<Report>) {
    && m.dataFramesSent == CountFirst(sent, 0) && m.ackFramesSent == CountFirst(sent, 1)
    && m.goodbyeFramesSent == CountFirst(sent, 3)
    && m.otherFramesSent == |sent| - CountFirst(sent, 0) - CountFirst(sent, 1) - CountFirst(sent, 3)
  }

  lemma {:induction false} CountsByType(sent: seq<Report>)
    requires Typed(sent)
    ensures Count(sent, Data) == CountFirst(sent, 0) && Count(sent, Ack) == CountFirst(sent, 1)
    ensures Count(sent, Goodbye) == CountFirst(sent, 3)
  {
    if sent != [] {
      var front, last := sent[..|sent| - 1], sent[|sent| - 1];
      assert last in sent && TypedByFirstByte(last.frame);
      assert forall r :: r in front ==> r in sent;
      CountsByType(front);
    }
  }

  lemma CountersReadBytes(m: Metrics, sent: seq<Report>)
    requires Counted(m, sent) && Typed(sent)
    ensures CountsFirstBytes(m, sent)
  {
    CountsByType(sent);
    CountsAddUp(sent);
  }

  lemma MoreTyped(sent: seq<Report>, stream: string, frames: seq<Frame>)
    requires Typed(sent) && forall f :: f in frames ==> TypedByFirstByte(f)
    ensures Typed(sent + Tagged(stream, frames))
  {
    hide TypedByFirstByte;
  }

  class InMemoryNetwork {
    var metrics: Metrics
    var outboundParsers: map<string, OutboundParser>
    var sent: seq<Report>

    // The parsers are separate objects.
    ghost predicate ParsersValid()
      reads this`outboundParsers, set s | s in outboundParsers :: outboundParsers[s],
            set s, o | s in outboundParsers && o in outboundParsers[s].Repr :: o
    {
      && (forall s :: s in outboundParsers ==> outboundParsers[s].Valid() && this !in outboundParsers[s].Repr)
      && (forall s, t :: s in outboundParsers && t in outboundParsers && s != t ==>
            outboundParsers[s].Repr !! outboundParsers[t].Repr)
    }

    ghost predicate Valid()
      reads this, set s | s in outboundParsers :: outboundParsers[s],
            set s, o | s in outboundParsers && o in outboundParsers[s].Repr :: o
    {
      Counted(metrics, sent) && Typed(sent) && ParsersValid()
    }

    // The state of a stream's parser; a stream without one starts afresh.
    ghost function StateOf(stream: string): ParserState
      requires ParsersValid()
      reads this`outboundParsers, set s | s in outboundParsers :: outboundParsers[s],
            set s, o | s in outboundParsers && o in outboundParsers[s].Repr :: o
    {
      if stream in outboundParsers then outboundParsers[stream].State() else INITIAL
    }

    constructor ()
      ensures Valid() && metrics == Metrics(0, 0, 0, 0, 0, 0) && sent == [] && outboundParsers == map[]
    {
      metrics, outboundParsers, sent := Metrics(0, 0, 0, 0, 0, 0), map[], [];
    }

    method GetParser(stream: string) returns (parser: OutboundParser)
      requires ParsersValid()
      modifies this`outboundParsers
      ensures ParsersValid() && stream in outboundParsers && outboundParsers[stream] == parser
      ensures old(outboundParsers.Keys) <= outboundParsers.Keys
      ensures forall s :: s in old(outboundParsers) ==> outboundParsers[s] == old(outboundParsers[s])
      ensures forall s :: s in outboundParsers && s !in old(outboundParsers) ==> fresh(outboundParsers[s].Repr)
      ensures forall s :: StateOf(s) == old(StateOf(s))
    {
      if stream in outboundParsers {
        return outboundParsers[stream];
      }
      parser := new OutboundParser();
      outboundParsers := outboundParsers[stream := parser];
    }

    method CountFrames(stream: string, frames: seq<Frame>)
      requires Counted(metrics, sent)
      modifies this`metrics, this`sent
      ensures Counted(metrics, sent) && sent == old(sent) + Tagged(stream, frames)
      ensures metrics.bytesSent == old(metrics.bytesSent)
    {
      assert Tagged(stream, frames[..0]) == [];
      for i := 0 to |frames|
        invariant Counted(metrics, sent) && sent == old(sent) + Tagged(stream, frames[..i])
        invariant metrics.bytesSent == old(metrics.bytesSent)
      {
        var frame := frames[i];
        assert Tagged(stream, frames[..i + 1]) == Tagged(stream, frames[..i]) + [Report(stream, frame)];
        ReportCounts(metrics, sent, Report(stream, frame));
        metrics := metrics.(framesSent := metrics.framesSent + 1);
        if frame.frameType.Data? {
          metrics := metrics.(dataFramesSent := metrics.dataFramesSent + 1);
        } else if frame.frameType.Ack? {
          metrics := metrics.(ackFramesSent := metrics.ackFramesSent + 1);
        } else if frame.frameType.Goodbye? {
          metrics := metrics.(goodbyeFramesSent := metrics.goodbyeFramesSent + 1);
        } else {
          metrics := metrics.(otherFramesSent := metrics.otherFramesSent + 1);
        }
        sent := sent + [Report(stream, frame)];
      }
      assert frames[..|frames|] == frames;
    }

    method RecordSend(stream: string, bytes: seq<bv8>)
      requires Valid()
      modifies this, if stream in outboundParsers then outboundParsers[stream].Repr else {}
      ensures Valid() && CountsFirstBytes(metrics, sent)
      ensures forall r :: r in sent ==> TypedByFirstByte(r.frame)
      ensures metrics.bytesSent == old(metrics.bytesSent) + |bytes|
      ensures StateOf(stream) == Feed(old(StateOf(stream)), bytes).0
      ensures sent == old(sent) + Tagged(stream, Feed(old(StateOf(stream)), bytes).1)
      ensures forall s :: s != stream ==> StateOf(s) == old(StateOf(s))
      ensures forall s :: s in outboundParsers ==>
                if s in old(outboundParsers) then outboundParsers[s] == old(outboundParsers[s])
                                                  && fresh(outboundParsers[s].Repr - old(outboundParsers[s].Repr))
                else fresh(outboundParsers[s].Repr)
      ensures old(outboundParsers.Keys) <= outboundParsers.Keys
    {
      hide Feed, Counted, TypedByFirstByte, CountsFirstBytes;
      ghost var sent0, state := sent, StateOf(stream);
      metrics := metrics.(bytesSent := metrics.bytesSent + |bytes|);
      assert Counted(metrics, sent) by { BytesDoNotCount(old(metrics), metrics, sent); }
      var frames := FeedStream(stream, bytes);
      CountFrames(stream, frames);
      FramesAreTyped(state, bytes);
      MoreTyped(sent0, stream, frames);
      CountersReadBytes(metrics, sent);
    }

    // The stream's parser, made if it is missing, takes the bytes.
    method FeedStream(stream: string, bytes: seq<bv8>) returns (frames: seq<Frame>)
      requires ParsersValid()
      modifies this`outboundParsers, if stream in outboundParsers then outboundParsers[stream].Repr else {}
      ensures ParsersValid()
      ensures (StateOf(stream), frames) == Feed(old(StateOf(stream)), bytes)
      ensures forall s :: s != stream ==> StateOf(s) == old(StateOf(s))
      ensures forall s :: s in outboundParsers ==>
                if s in old(outboundParsers) then outboundParsers[s] == old(outboundParsers[s])
                                                  && fresh(outboundParsers[s].Repr - old(outboundParsers[s].Repr))
                else fresh(outboundParsers[s].Repr)
      ensures old(outboundParsers.Keys) <= outboundParsers.Keys
    {
      hide Feed;
      var parser := GetParser(stream);
      frames := FeedParser(stream, parser, bytes);
    }

    method FeedParser(stream: string, parser: OutboundParser, bytes: seq<bv8>) returns (frames: seq<Frame>)
      requires ParsersValid() && stream in outboundParsers && outboundParsers[stream] == parser
      modifies parser.Repr
      ensures ParsersValid()
      ensures (StateOf(stream), frames) == Feed(old(StateOf(stream)), bytes)
      ensures forall s :: s != stream ==> StateOf(s) == old(StateOf(s))
      ensures forall s :: s in outboundParsers && s != stream ==>
                outboundParsers[s].Repr == old(outboundParsers[s].Repr)
      ensures fresh(parser.Repr - old(parser.Repr))
    {
      hide Feed;
      frames := parser.FeedChunk(bytes);
      forall s | s in outboundParsers && s != stream
        ensures outboundParsers[s].Valid() && outboundParsers[s].State() == old(outboundParsers[s].State())
        ensures outboundParsers[s].Repr == old(outboundParsers[s].Repr)
      {
        assert old(outboundParsers[s].Repr !! parser.Repr);
      }
    }
  }

  lemma ReportCounts(m: Metrics, sent: seq<Report>, r: Report)
    requires Counted(m, sent)
    ensures |sent + [r]| == m.framesSent + 1
    ensures Count(sent + [r], Data) == m.dataFramesSent + (if r.frame.frameType.Data? then 1 else 0)
    ensures Count(sent + [r], Ack) == m.ackFramesSent + (if r.frame.frameType.Ack? then 1 else 0)
    ensures Count(sent + [r], Goodbye) == m.goodbyeFramesSent + (if r.frame.frameType.Goodbye? then 1 else 0)
    ensures Count(sent + [r], Other) == m.otherFramesSent + (if r.frame.frameType.Other? then 1 else 0)
  {
    assert (sent + [r])[..|sent|] == sent;
  }

  // The counters by type add up to the number of frames.
  lemma {:induction false} CountsAddUp(sent: seq<Report>)
    ensures Count(sent, Data) + Count(sent, Ack) + Count(sent, Goodbye) + Count(sent, Other) == |sent|
  {
    if sent != [] {
      CountsAddUp(sent[..|sent| - 1]);
    }
  }

  lemma BytesDoNotCount(m: Metrics, m': Metrics, sent: seq<Report>)
    requires Counted(m, sent) && m' == m.(bytesSent := m'.bytesSent)
    ensures Counted(m', sent)
  {
  }

  // ----- Any interleaving of chunks on any streams -----

  datatype Send = Send(stream: string, chunk: seq<bv8>)

  // All the bytes sent on one stream, in order.
  function BytesOn(sends: seq<Send>, stream: string): seq<bv8> {
    if sends == [] then []
    else
      var front, last := BytesOn(sends[..|sends| - 1], stream), sends[|sends| - 1];
      if last.stream == stream then front + last.chunk else front
  }

  function TotalBytes(sends: seq<Send>): nat {
    if sends == [] then 0 else TotalBytes(sends[..|sends| - 1]) + |sends[|sends| - 1].chunk|
  }

  // The frame bytes of all reports, whatever stream they are on.
  function ReportBytes(sent: seq<Report>): nat {
    if sent == [] then 0 else ReportBytes(sent[..|sent| - 1]) + sent[|sent| - 1].frame.bytes
  }

  // The sends on the other streams, and their reports.
  function SendsBut(sends: seq<Send>, stream: string): (others: seq<Send>)
    ensures |others| <= |sends| && (sends != [] && sends[|sends| - 1].stream == stream ==> |others| < |sends|)
  {
    if sends == [] then []
    else
      var front, last := SendsBut(sends[..|sends| - 1], stream), sends[|sends| - 1];
      if last.stream == stream then front else front + [last]
  }

  function SentBut(sent: seq<Report>, stream: string): (others: seq<Report>)
    ensures |others| <= |sent| && (sent != [] && sent[|sent| - 1].stream == stream ==> |others| < |sent|)
  {
    if sent == [] then []
    else
      var front, last := SentBut(sent[..|sent| - 1], stream), sent[|sent| - 1];
      if last.stream == stream then front else front + [last]
  }

  lemma {:induction false} SendsSplit(sends: seq<Send>, stream: string)
    ensures TotalBytes(sends) == |BytesOn(sends, stream)| + TotalBytes(SendsBut(sends, stream))
    ensures forall s :: BytesOn(SendsBut(sends, stream), s) == if s == stream then [] else BytesOn(sends, s)
  {
    if sends != [] {
      SendsSplit(sends[..|sends| - 1], stream);
      var others, last := SendsBut(sends[..|sends| - 1], stream), sends[|sends| - 1];
      assert (others + [last])[..|others|] == others;
    }
  }

  lemma {:induction false} SentSplit(sent: seq<Report>, stream: string)
    ensures ReportBytes(sent) == SumBytes(OnStream(sent, stream)) + ReportBytes(SentBut(sent, stream))
    ensures forall s :: OnStream(SentBut(sent, stream), s) == if s == stream then [] else OnStream(sent, s)
  {
    if sent != [] {
      SentSplit(sent[..|sent| - 1], stream);
      var others, last := SentBut(sent[..|sent| - 1], stream), sent[|sent| - 1];
      assert (others + [last])[..|others|] == others;
      var frames := OnStream(sent[..|sent| - 1], stream);
      SumSnoc(frames, last.frame);
    }
  }

  lemma {:induction false} SumSnoc(frames: seq<Frame>, frame: Frame)
    ensures SumBytes(frames + [frame]) == SumBytes(frames) + frame.bytes
  {
    if frames != [] {
      SumSnoc(frames[1..], frame);
      assert (frames + [frame])[1..] == frames[1..] + [frame];
    } else {
      assert ([] + [frame])[1..] == [];
    }
  }

  // What adds up on every stream adds up over all of them.
  lemma {:induction false} StreamsAddUp(sends: seq<Send>, sent: seq<Report>)
    requires forall s :: SumBytes(OnStream(sent, s)) == |BytesOn(sends, s)|
    ensures ReportBytes(sent) == TotalBytes(sends)
    decreases |sends| + |sent|
  {
    if sends != [] || sent != [] {
      var stream := if sends != [] then sends[|sends| - 1].stream else sent[|sent| - 1].stream;
      SendsSplit(sends, stream);
      SentSplit(sent, stream);
      hide OnStream, BytesOn, ReportBytes, TotalBytes, SendsBut, SentBut;
      assert SumBytes([]) == 0;
      StreamsAddUp(SendsBut(sends, stream), SentBut(sent, stream));
    }
  }

  // Bytes that are whole frames of payloads within the limit.
  ghost predicate Framed(bytes: seq<bv8>) { exists payloads :: AllFit(payloads) && bytes == EncodeAll(payloads) }

  // If every stream carries whole frames, the reported frame bytes are the bytes sent.
  lemma FramedBytesAddUp(sends: seq<Send>, sent: seq<Report>)
    requires forall s :: OnStream(sent, s) == Feed(INITIAL, BytesOn(sends, s)).1
    requires forall s :: Framed(BytesOn(sends, s))
    ensures ReportBytes(sent) == TotalBytes(sends)
  {
    hide OnStream, BytesOn, Feed;
    forall s ensures SumBytes(OnStream(sent, s)) == |BytesOn(sends, s)| {
      assert Framed(BytesOn(sends, s));
      var payloads :| AllFit(payloads) && BytesOn(sends, s) == EncodeAll(payloads);
      ChunkingDoesNotMatter(sends, s, payloads);
    }
    StreamsAddUp(sends, sent);
  }

  lemma {:induction false} OnStreamTagged(sent: seq<Report>, stream: string, frames: seq<Frame>, s: string)
    ensures OnStream(sent + Tagged(stream, frames), s)
         == if s == stream then OnStream(sent, s) + frames else OnStream(sent, s)
  {
    if frames == [] {
      assert sent + Tagged(stream, frames) == sent;
    } else {
      var front, last := frames[..|frames| - 1], frames[|frames| - 1];
      OnStreamTagged(sent, stream, front, s);
      var all := sent + Tagged(stream, frames);
      assert all[..|all| - 1] == sent + Tagged(stream, front);
      assert all[|all| - 1] == Report(stream, last);
      assert frames == front + [last];
    }
  }

  // Whatever is sent, in whatever chunks and interleaving, each stream reports the frames of its
  // own bytes, and the counters account for all of it.
  method Replay(sends: seq<Send>) returns (net: InMemoryNetwork)
    ensures net.Valid() && net.metrics.bytesSent == TotalBytes(sends) && CountsFirstBytes(net.metrics, net.sent)
    ensures forall r :: r in net.sent ==> TypedByFirstByte(r.frame)
    ensures forall s :: OnStream(net.sent, s) == Feed(INITIAL, BytesOn(sends, s)).1
    ensures (forall s :: Framed(BytesOn(sends, s))) ==> ReportBytes(net.sent) == net.metrics.bytesSent
  {
    hide Feed, Counted, Framed, ReportBytes, CountsFirstBytes, TypedByFirstByte;
    net := new InMemoryNetwork();
    NothingFed();
    for i := 0 to |sends|
      invariant fresh(net) && net.Valid() && forall s :: s in net.outboundParsers ==> fresh(net.outboundParsers[s].Repr)
      invariant net.metrics.bytesSent == TotalBytes(sends[..i])
      invariant forall s :: net.StateOf(s) == Feed(INITIAL, BytesOn(sends[..i], s)).0
      invariant forall s :: OnStream(net.sent, s) == Feed(INITIAL, BytesOn(sends[..i], s)).1
    {
      var send := sends[i];
      assert sends[..i + 1][..i] == sends[..i];
      ghost var state, sent, bytes := net.StateOf(send.stream), net.sent, BytesOn(sends[..i], send.stream);
      FeedConcat(INITIAL, bytes, send.chunk);
      net.RecordSend(send.stream, send.chunk);
      forall s ensures OnStream(net.sent, s) == Feed(INITIAL, BytesOn(sends[..i + 1], s)).1 {
        OnStreamTagged(sent, send.stream, Feed(state, send.chunk).1, s);
      }
    }
    assert sends[..|sends|] == sends;
    CountersReadBytes(net.metrics, net.sent);
    if forall s :: Framed(BytesOn(sends, s)) {
      FramedBytesAddUp(sends, net.sent);
    }
  }

  lemma NothingFed()
    ensures Feed(INITIAL, []) == (INITIAL, [])
  {
  }

  // So payloads that were framed come out again, however the bytes were chunked, and their frame
  // bytes are all the bytes of the stream.
  lemma ChunkingDoesNotMatter(sends: seq<Send>, stream: string, payloads: seq<seq<bv8>>)
    requires AllFit(payloads) && BytesOn(sends, stream) == EncodeAll(payloads)
    ensures var frames := Feed(INITIAL, BytesOn(sends, stream)).1;
            && |frames| == |payloads| && (forall i :: 0 <= i < |payloads| ==> frames[i].payload == payloads[i])
            && SumBytes(frames) == |BytesOn(sends, stream)|
  {
    FeedEncodeAll(payloads);
    FrameBytesAddUp(payloads);
  }
}
