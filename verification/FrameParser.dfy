// InMemoryNetwork.recordSend (apps/peerbit-org/src/sim/inmemory-libp2p.ts): the incremental parser
// of length-prefixed frames, one per outbound stream, and the traffic counters.
//
// The reference is a machine that takes one byte at a time.  The class takes chunks and copies
// payload bytes in bulk.
module FrameParser {
  import opened Wrappers
  import opened Bits

  const MAX_FRAME_LENGTH: nat := 8 * 1024 * 1024

  datatype FrameType = Data | Ack | Goodbye | Other

  // What onFrameSent reports: the bytes include the prefix.
  datatype Frame = Frame(frameType: FrameType, bytes: nat, payload: seq<bv8>)

  function TypeOf(payload: seq<bv8>): FrameType {
    if payload == [] then Other
    else if payload[0] == 0 then Data
    else if payload[0] == 1 then Ack
    else if payload[0] == 3 then Goodbye
    else Other
  }

  // ----- The machine that takes one byte -----

  datatype Progress = Progress(length: nat, received: seq<bv8>)

  datatype ParserState = ParserState(value: bv32, shift: bv32, count: nat, prefix: nat, payload: Option<Progress>)

  const INITIAL := ParserState(0, 0, 0, 0, None)

  // A 32-bit shift takes the low five bits of its count.
  function OrBits(value: bv32, b: bv8, shift: bv32): bv32 {
    value | (((b & 0x7f) as bv32) << (shift & 31))
  }

  function Step(p: ParserState, b: bv8): (ParserState, seq<Frame>) {
    if p.payload.Some? then
      var Progress(length, received) := p.payload.value;
      if |received| + 1 < length then (p.(payload := Some(Progress(length, received + [b]))), [])
      else (p.(prefix := 0, payload := None),
            [Frame(TypeOf(received + [b]), p.prefix + |received| + 1, received + [b])])
    else
      var value := OrBits(p.value, b, p.shift);
      if p.count + 1 > 10 then (INITIAL, [])
      else if b >= 0x80 then (p.(value := value, shift := p.shift + 7, count := p.count + 1), [])
      else AfterLength(value, p.count + 1)
  }

  // The state reached once the length n has been read with a prefix of c bytes.
  function AfterLength(n: bv32, c: nat): (ParserState, seq<Frame>) {
    if n as nat > MAX_FRAME_LENGTH then (INITIAL, [])
    else if n == 0 then (INITIAL, [Frame(Other, c, [])])
    else (ParserState(0, 0, 0, c, Some(Progress(n as nat, []))), [])
  }

  function Feed(p: ParserState, bytes: seq<bv8>): (ParserState, seq<Frame>)
    decreases |bytes|
  {
    if bytes == [] then (p, [])
    else
      var (p1, f1) := Step(p, bytes[0]);
      var (p2, f2) := Feed(p1, bytes[1..]);
      (p2, f1 + f2)
  }

  // A parser that waits for payload waits for at least one byte.
  predicate Proper(p: ParserState) { p.payload.Some? ==> |p.payload.value.received| < p.payload.value.length }

  // Feeding a then b is feeding a + b, whatever the bytes are.
  lemma {:induction false} FeedConcat(p: ParserState, a: seq<bv8>, b: seq<bv8>)
    ensures Feed(p, a + b) == (Feed(Feed(p, a).0, b).0, Feed(p, a).1 + Feed(Feed(p, a).0, b).1)
    decreases |a|
  {
    if a == [] {
      assert a + b == b;
      assert [] + Feed(p, b).1 == Feed(p, b).1;
    } else {
      hide Step;
      assert (a + b)[0] == a[0] && (a + b)[1..] == a[1..] + b;
      var (p1, f1) := Step(p, a[0]);
      FeedConcat(p1, a[1..], b);
      var (p2, f2) := Feed(p1, a[1..]);
      var (p3, f3) := Feed(p2, b);
      assert f1 + (f2 + f3) == f1 + f2 + f3;
    }
  }

  lemma FeedOne(p: ParserState, b: bv8)
    ensures Feed(p, [b]) == Step(p, b)
  {
    var (p1, f1) := Step(p, b);
    assert [b][1..] == [];
    assert f1 + [] == f1;
  }

  // Payload bytes in bulk.
  lemma {:induction false} FeedPayload(p: ParserState, chunk: seq<bv8>)
    requires p.payload.Some? && Proper(p) && chunk != []
    requires |p.payload.value.received| + |chunk| <= p.payload.value.length
    ensures var Progress(length, received) := p.payload.value;
            Feed(p, chunk) ==
            if |received| + |chunk| < length then (p.(payload := Some(Progress(length, received + chunk))), [])
            else (p.(prefix := 0, payload := None),
                  [Frame(TypeOf(received + chunk), p.prefix + length, received + chunk)])
    decreases |chunk|
  {
    var Progress(length, received) := p.payload.value;
    if |chunk| == 1 {
      assert chunk == [chunk[0]];
      FeedOne(p, chunk[0]);
    } else {
      var p1 := p.(payload := Some(Progress(length, received + [chunk[0]])));
      assert Step(p, chunk[0]) == (p1, []);
      assert received + [chunk[0]] + chunk[1..] == received + chunk;
      FeedPayload(p1, chunk[1..]);
      assert [] + Feed(p1, chunk[1..]).1 == Feed(p1, chunk[1..]).1;
    }
  }

  // ----- Framing -----

  // Unsigned LEB128 (section 7.6 of DWARF 4): groups of seven bits, the low ones first, with the
  // high bit set on all but the last.
  function Varint(n: bv32): seq<bv8>
    decreases n
  {
    if n < 0x80 then [n as bv8] else [Continued(n)] + Varint(n >> 7)
  }

  function Continued(n: bv32): bv8 { ((n & 0x7f) | 0x80) as bv8 }

  function Encode(payload: seq<bv8>): seq<bv8>
    requires |payload| < 0x1_0000_0000
  {
    Varint(Word(|payload|)) + payload
  }

  predicate AllFit(payloads: seq<seq<bv8>>) { forall p :: p in payloads ==> |p| <= MAX_FRAME_LENGTH }

  function EncodeAll(payloads: seq<seq<bv8>>): seq<bv8>
    requires AllFit(payloads)
  {
    if payloads == [] then [] else Encode(payloads[0]) + EncodeAll(payloads[1..])
  }

  function FramesOf(payloads: seq<seq<bv8>>): seq<Frame>
    requires AllFit(payloads)
  {
    if payloads == [] then []
    else [Frame(TypeOf(payloads[0]), |Encode(payloads[0])|, payloads[0])] + FramesOf(payloads[1..])
  }

  // The length n, of which the groups below `shift` are read and `high` is still to come.
  ghost predicate Split(n: bv32, low: bv32, high: bv32, shift: bv32) {
    && (shift == 0 || shift == 7 || shift == 14 || shift == 21 || shift == 28)
    && low == n & ((1 << shift) - 1) && high == n >> shift
  }

  lemma MiddleGroup(n: bv32, low: bv32, high: bv32, shift: bv32)
    requires Split(n, low, high, shift) && high >= 0x80
    ensures shift < 28 && Continued(high) >= 0x80
    ensures Split(n, OrBits(low, Continued(high), shift), high >> 7, shift + 7)
  {
    LowerGroups(n, low, high, shift);
    HigherGroups(n, low, high, shift);
    hide OrBits, Continued;
  }

  lemma LowerGroups(n: bv32, low: bv32, high: bv32, shift: bv32)
    requires Split(n, low, high, shift) && high >= 0x80
    ensures shift < 28 && Continued(high) >= 0x80
    ensures OrBits(low, Continued(high), shift) == n & ((1 << (shift + 7)) - 1)
  {
  }

  lemma HigherGroups(n: bv32, low: bv32, high: bv32, shift: bv32)
    requires Split(n, low, high, shift) && high >= 0x80
    ensures shift < 28 && high >> 7 == n >> (shift + 7)
  {
  }

  lemma LastGroup(n: bv32, low: bv32, high: bv32, shift: bv32)
    requires Split(n, low, high, shift) && high < 0x80
    ensures high as bv8 < 0x80 && OrBits(low, high as bv8, shift) == n
  {
  }

  lemma NothingRead(n: bv32)
    ensures Split(n, 0, n, 0)
  {
  }

  lemma {:induction false} FeedVarint(n: bv32, low: bv32, high: bv32, shift: bv32, c: nat)
    requires Split(n, low, high, shift) && 7 * c == shift as nat && c <= 4
    ensures Feed(ParserState(low, shift, c, 0, None), Varint(high)) == AfterLength(n, c + |Varint(high)|)
    decreases high
  {
    hide Split, OrBits, Continued, AfterLength, Step;
    var p, v := ParserState(low, shift, c, 0, None), Varint(high);
    if high < 0x80 {
      LastGroup(n, low, high, shift);
      StepLast(n, low, high, shift, c);
      FeedOne(p, v[0]);
    } else {
      MiddleGroup(n, low, high, shift);
      ShiftAdds(shift);
      FewerGroups(high);
      StepMiddle(p, Continued(high));
      var p1 := ParserState(OrBits(low, Continued(high), shift), shift + 7, c + 1, 0, None);
      FeedVarint(n, p1.value, high >> 7, shift + 7, c + 1);
      FeedMore(p, p1, Continued(high), Varint(high >> 7));
    }
  }

  lemma FewerGroups(high: bv32)
    requires high >= 0x80
    ensures high >> 7 < high
  {
  }

  lemma FeedMore(p: ParserState, p1: ParserState, b: bv8, rest: seq<bv8>)
    requires Step(p, b) == (p1, [])
    ensures Feed(p, [b] + rest) == Feed(p1, rest)
  {
    hide Step;
    assert ([b] + rest)[1..] == rest;
    assert [] + Feed(p1, rest).1 == Feed(p1, rest).1;
  }

  lemma ShiftAdds(shift: bv32)
    requires shift < 28
    ensures (shift + 7) as nat == shift as nat + 7 <= 34
  {
  }

  lemma StepMiddle(p: ParserState, b: bv8)
    requires p.payload.None? && b >= 0x80 && p.count < 10
    ensures Step(p, b) == (p.(value := OrBits(p.value, b, p.shift), shift := p.shift + 7, count := p.count + 1), [])
  {
  }

  lemma StepLast(n: bv32, low: bv32, high: bv32, shift: bv32, c: nat)
    requires high < 0x80 && high as bv8 < 0x80 && OrBits(low, high as bv8, shift) == n && c < 10
    ensures Step(ParserState(low, shift, c, 0, None), high as bv8) == AfterLength(n, c + 1)
  {
    hide OrBits;
  }

  // One frame in, the same frame out, and the parser back where it was.
  lemma FeedEncode(payload: seq<bv8>)
    requires |payload| <= MAX_FRAME_LENGTH
    ensures Feed(INITIAL, Encode(payload)) == (INITIAL, [Frame(TypeOf(payload), |Encode(payload)|, payload)])
  {
    var n := Word(|payload|);
    LengthFits(payload);
    NothingRead(n);
    FeedVarint(n, 0, n, 0, 0);
    hide Varint, Step, AfterLength, Feed;
    FeedFrame(Varint(n), payload);
  }

  // A prefix that announces the payload, followed by it.
  lemma FeedFrame(prefix: seq<bv8>, payload: seq<bv8>)
    requires Feed(INITIAL, prefix) ==
             if payload == [] then (INITIAL, [Frame(Other, |prefix|, [])])
             else (ParserState(0, 0, 0, |prefix|, Some(Progress(|payload|, []))), [])
    ensures Feed(INITIAL, prefix + payload) == (INITIAL, [Frame(TypeOf(payload), |prefix + payload|, payload)])
  {
    hide Step, Feed;
    FeedConcat(INITIAL, prefix, payload);
    if payload == [] {
      assert prefix + payload == prefix;
    } else {
      var middle := ParserState(0, 0, 0, |prefix|, Some(Progress(|payload|, [])));
      FeedPayload(middle, payload);
      assert [] + payload == payload;
      var frame := Frame(TypeOf(payload), |prefix + payload|, payload);
      assert [] + [frame] == [frame];
    }
  }

  lemma LengthFits(payload: seq<bv8>)
    requires |payload| <= MAX_FRAME_LENGTH
    ensures forall c :: AfterLength(Word(|payload|), c) ==
                        if payload == [] then (INITIAL, [Frame(Other, c, [])])
                        else (ParserState(0, 0, 0, c, Some(Progress(|payload|, []))), [])
  {
    ZeroBits(Word(|payload|));
  }

  lemma ZeroBits(n: bv32)
    ensures n == 0 <==> n as nat == 0
  {
  }

  // The parser inverts framing.
  lemma {:induction false} FeedEncodeAll(payloads: seq<seq<bv8>>)
    requires AllFit(payloads)
    ensures Feed(INITIAL, EncodeAll(payloads)) == (INITIAL, FramesOf(payloads))
  {
    if payloads != [] {
      FeedEncode(payloads[0]);
      FeedEncodeAll(payloads[1..]);
      FeedConcat(INITIAL, Encode(payloads[0]), EncodeAll(payloads[1..]));
    }
  }

  // A longer frame breaks this: its prefix is forgotten, so its payload is read as prefixes.
  lemma OversizedPrefixIsForgotten(n: bv32)
    requires n as nat > 8 * 1024 * 1024
    ensures Feed(INITIAL, Varint(n)) == (INITIAL, [])
  {
    NothingRead(n);
    FeedVarint(n, 0, n, 0, 0);
  }

  // A prefix may go on for ten bytes.  The eleventh one is swallowed, whatever it is, and the
  // parser starts anew; after up to ten bytes that go on, it still waits.
  lemma {:induction false} PrefixEndsAtEleven(bytes: seq<bv8>, b: bv8)
    requires |bytes| <= 10 && forall i :: 0 <= i < |bytes| ==> bytes[i] >= 0x80
    ensures var (p, frames) := Feed(INITIAL, bytes);
      && frames == [] && p.payload.None? && p.count == |bytes|
      && (|bytes| == 10 ==> Feed(INITIAL, bytes + [b]) == (INITIAL, []))
      && (|bytes| < 10 && b >= 0x80 ==> Feed(INITIAL, bytes + [b]).0 != INITIAL)
  {
    if bytes != [] {
      var front, last := bytes[..|bytes| - 1], bytes[|bytes| - 1];
      PrefixEndsAtEleven(front, b);
      assert bytes == front + [last];
      FeedConcat(INITIAL, front, [last]);
      FeedOne(Feed(INITIAL, front).0, last);
      hide OrBits, AfterLength;
    }
    FeedConcat(INITIAL, bytes, [b]);
    FeedOne(Feed(INITIAL, bytes).0, b);
  }

  // No frame is reported that is longer than the limit.
  predicate WithinLimit(p: ParserState) { p.payload.Some? ==> p.payload.value.length <= MAX_FRAME_LENGTH }

  lemma {:induction false} ReportsStayWithinLimit(p: ParserState, bytes: seq<bv8>)
    requires Proper(p) && WithinLimit(p)
    ensures forall f :: f in Feed(p, bytes).1 ==> |f.payload| <= 8 * 1024 * 1024
    decreases |bytes|
  {
    if bytes != [] {
      StepStaysWithinLimit(p, bytes[0]);
      hide Step, Proper, WithinLimit;
      ReportsStayWithinLimit(Step(p, bytes[0]).0, bytes[1..]);
    }
  }

  lemma StepStaysWithinLimit(p: ParserState, b: bv8)
    requires Proper(p) && WithinLimit(p)
    ensures var (p', frames) := Step(p, b);
      Proper(p') && WithinLimit(p') && forall f :: f in frames ==> |f.payload| <= MAX_FRAME_LENGTH
  {
    hide OrBits, AfterLength;
    if p.payload.None? {
      AfterLengthWithinLimit(OrBits(p.value, b, p.shift), p.count + 1);
    }
  }

  lemma AfterLengthWithinLimit(n: bv32, c: nat)
    ensures var (p, frames) := AfterLength(n, c);
      Proper(p) && WithinLimit(p) && forall f :: f in frames ==> f.payload == []
  {
    ZeroBits(n);
  }

  // A framed payload comes out, alone and with nothing left over, exactly if it fits.
  lemma FramedComesOutIffItFits(payload: seq<bv8>)
    requires |payload| < 0x1_0000_0000
    ensures Feed(INITIAL, Encode(payload)) == (INITIAL, [Frame(TypeOf(payload), |Encode(payload)|, payload)])
            <==> |payload| <= 8 * 1024 * 1024
  {
    if |payload| <= MAX_FRAME_LENGTH {
      FeedEncode(payload);
    } else {
      var frame := Frame(TypeOf(payload), |Encode(payload)|, payload);
      ReportsStayWithinLimit(INITIAL, Encode(payload));
      assert [frame][0] in [frame];
    }
  }

  // ----- What the type of a frame says about its bytes -----

  // 0 starts data, 1 an acknowledgement, 3 a goodbye; anything else, or nothing, is of no known type.
  ghost predicate TypedByFirstByte(f: Frame) {
    && (f.frameType.Data? <==> f.payload != [] && f.payload[0] == 0)
    && (f.frameType.Ack? <==> f.payload != [] && f.payload[0] == 1)
    && (f.frameType.Goodbye? <==> f.payload != [] && f.payload[0] == 3)
  }

  lemma {:induction false} FramesAreTyped(p: ParserState, bytes: seq<bv8>)
    ensures forall f :: f in Feed(p, bytes).1 ==> TypedByFirstByte(f)
    decreases |bytes|
  {
    if bytes != [] {
      StepIsTyped(p, bytes[0]);
      FramesAreTyped(Step(p, bytes[0]).0, bytes[1..]);
      hide Step, TypedByFirstByte;
    }
  }

  lemma StepIsTyped(p: ParserState, b: bv8)
    ensures forall f :: f in Step(p, b).1 ==> TypedByFirstByte(f)
  {
    hide OrBits;
  }

  function SumBytes(frames: seq<Frame>): nat {
    if frames == [] then 0 else frames[0].bytes + SumBytes(frames[1..])
  }

  lemma {:induction false} FrameBytesAddUp(payloads: seq<seq<bv8>>)
    requires AllFit(payloads)
    ensures SumBytes(FramesOf(payloads)) == |EncodeAll(payloads)|
    ensures |FramesOf(payloads)| == |payloads|
    ensures forall i :: 0 <= i < |payloads| ==> FramesOf(payloads)[i].payload == payloads[i]
  {
    if payloads != [] {
      hide Encode, TypeOf;
      FrameBytesAddUp(payloads[1..]);
      assert FramesOf(payloads)[1..] == FramesOf(payloads[1..]);
    }
  }

  // ----- The source's parser object -----

  class OutboundParser {
    var varintValue: bv32
    var varintShift: bv32
    var varintBytes: nat
    var currentPrefixBytes: nat
    var payload: array?<bv8>
    var payloadWritten: nat
    ghost var Repr: set<object>

    ghost predicate Valid()
      reads this, Repr
      ensures Valid() ==> this in Repr
    {
      && this in Repr
      && (payload != null ==> payload in Repr && payloadWritten < payload.Length)
    }

    ghost function State(): ParserState
      requires Valid()
      reads this, Repr
    {
      ParserState(varintValue, varintShift, varintBytes, currentPrefixBytes,
                  if payload == null then None else Some(Progress(payload.Length, payload[..payloadWritten])))
    }

    constructor ()
      ensures Valid() && fresh(Repr) && State() == INITIAL
    {
      varintValue, varintShift, varintBytes, currentPrefixBytes, payload, payloadWritten := 0, 0, 0, 0, null, 0;
      Repr := {this};
    }

    // Reads one byte of a length prefix.
    method ReadPrefixByte(b: bv8) returns (frames: seq<Frame>)
      requires Valid() && payload == null
      modifies this
      ensures Valid() && fresh(Repr - old(Repr))
      ensures (State(), frames) == Step(old(State()), b)
    {
      hide OrBits, AfterLength;
      frames := [];
      varintValue := OrBits(varintValue, b, varintShift);
      varintShift := varintShift + 7;
      varintBytes := varintBytes + 1;
      if varintBytes > 10 {
        // Too many groups: start over.
        varintValue, varintShift, varintBytes, currentPrefixBytes, payloadWritten := 0, 0, 0, 0, 0;
        return;
      }
      if b < 0x80 {
        frames := StartFrame();
      }
    }

    // The length prefix is complete.
    method StartFrame() returns (frames: seq<Frame>)
      requires Valid() && payload == null
      modifies this
      ensures Valid() && fresh(Repr - old(Repr))
      ensures (State(), frames) == AfterLength(old(varintValue), old(varintBytes))
    {
      frames := [];
      var word := varintValue;
      var length := word as nat;
      currentPrefixBytes := varintBytes;
      varintValue, varintShift, varintBytes, payloadWritten := 0, 0, 0, 0;
      ZeroBits(word);
      if length > MAX_FRAME_LENGTH {
        // Longer than the limit: nothing is allocated for it.
        currentPrefixBytes := 0;
      } else if length == 0 {
        frames := [Frame(Other, currentPrefixBytes, [])];
        currentPrefixBytes := 0;
      } else {
        payload := new bv8[length];
        Repr := Repr + {payload};
        assert payload[..0] == [];
      }
    }

    // Copies payload bytes from bytes[offset..], as many as fit.
    method ReadPayload(bytes: seq<bv8>, offset: nat) returns (frames: seq<Frame>, taken: nat)
      requires Valid() && payload != null && offset < |bytes|
      modifies this, payload
      ensures Valid() && Repr == old(Repr)
      ensures 0 < taken <= |bytes| - offset
      ensures (State(), frames) == Feed(old(State()), bytes[offset..offset + taken])
    {
      hide Feed, Step;
      frames := [];
      taken := Min(payload.Length - payloadWritten, |bytes| - offset);
      ghost var chunk := bytes[offset..offset + taken];
      FeedPayload(State(), chunk);
      CopyInto(payload, payloadWritten, bytes, offset, taken);
      payloadWritten := payloadWritten + taken;
      if payloadWritten == payload.Length {
        assert payload[..] == payload[..payloadWritten];
        frames := [Frame(TypeOf(payload[..]), currentPrefixBytes + payload.Length, payload[..])];
        currentPrefixBytes, payload, payloadWritten := 0, null, 0;
      }
    }

    // The loop of recordSend over one chunk.
    method FeedChunk(bytes: seq<bv8>) returns (frames: seq<Frame>)
      requires Valid()
      modifies Repr
      ensures Valid() && fresh(Repr - old(Repr))
      ensures (State(), frames) == Feed(old(State()), bytes)
    {
      frames := [];
      var offset := 0;
      ghost var start := State();
      assert bytes[..0] == [];
      while offset < |bytes|
        invariant offset <= |bytes| && Valid() && fresh(Repr - old(Repr))
        invariant (State(), frames) == Feed(start, bytes[..offset])
      {
        ghost var p := State();
        var more: seq<Frame>;
        var taken := 1;
        if payload == null {
          more := ReadPrefixByte(bytes[offset]);
          FeedOne(p, bytes[offset]);
          assert bytes[offset..offset + 1] == [bytes[offset]];
        } else {
          more, taken := ReadPayload(bytes, offset);
        }
        FeedConcat(start, bytes[..offset], bytes[offset..offset + taken]);
        assert bytes[..offset] + bytes[offset..offset + taken] == bytes[..offset + taken];
        frames := frames + more;
        offset := offset + taken;
      }
      assert bytes[..offset] == bytes;
    }
  }

  // Uint8Array.set of source[offset..offset + n] at the given index.
  method CopyInto(target: array<bv8>, at: nat, source: seq<bv8>, offset: nat, n: nat)
    requires at + n <= target.Length && offset + n <= |source|
    modifies target
    ensures target[..at + n] == old(target[..at]) + source[offset..offset + n]
  {
    for i := 0 to n
      invariant target[..at + i] == old(target[..at]) + source[offset..offset + i]
    {
      target[at + i] := source[offset + i];
      assert target[..at + i + 1] == target[..at + i] + [source[offset + i]];
      assert source[offset..offset + i + 1] == source[offset..offset + i] + [source[offset + i]];
    }
  }
}
