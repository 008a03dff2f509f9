/** RTU framing: the frame encoder of `src/codec.rs`, the parsers and the server loop of `src/transport/rtu.rs`. */
module Rtu {
  import opened Wire
  import opened Pdu
  import opened Crc
  import opened SendRecv
  import opened Errors
  import opened SerialLine
  import Requests = RequestCodec
  import Responses = ResponseCodec
  import Store = SlaveStore

  const MIN_RTU_FRAME := 5
  const CRC_SIZE := 2

  function EncodedFrame(data: seq<Byte>): (frame: seq<Byte>)
    ensures |frame| == |data| + CRC_SIZE
  {
    data + LeBytes(Crc16(data))
  }

  method EncodeRtuFrame(data: seq<Byte>, buf: BytesMut, table: array<U16>)
    requires IsCrcTable(table[..])
    modifies buf
    ensures buf.data == old(buf.data) + EncodedFrame(data)
  {
    hide IsCrcTable, Crc16;
    var crc := CalculateCrc(table, data);
    buf.PutSlice(data);
    var lo: Byte, hi: Byte := crc % 256, crc / 256;
    buf.PutU8(lo);
    buf.PutU8(hi);
    Appended(old(buf.data), data, lo, hi);
  }

  lemma {:induction false} Appended(before: seq<Byte>, data: seq<Byte>, lo: Byte, hi: Byte)
    ensures before + data + [lo] + [hi] == before + (data + [lo, hi])
  {
  }

  /** The whole buffer as one frame: long enough, checksum right, function code known. */
  function Parsed(buf: seq<Byte>): Parse {
    if |buf| < MIN_RTU_FRAME then Nothing
    else
      var data := buf[..|buf| - 2];
      if buf[|buf| - 2..] != LeBytes(Crc16(data)) then Nothing
      else if !IsKnownFunctionCode(data[1]) then Nothing
      else Found(Frame(data[0], data[1..]), |buf|)
  }

  method TryParseServerRtu(buf: seq<Byte>, table: array<U16>) returns (p: Parse)
    requires IsCrcTable(table[..])
    ensures p == Parsed(buf)
  {
    hide IsCrcTable, Crc16;
    if |buf| < MIN_RTU_FRAME {
      return Nothing;
    }
    var received := BeU16(buf[|buf| - 1], buf[|buf| - 2]);
    var calculated := CalculateCrc(table, buf[..|buf| - 2]);
    LittleEndian(buf[|buf| - 2], buf[|buf| - 1], calculated);
    assert buf[|buf| - 2..] == [buf[|buf| - 2], buf[|buf| - 1]];
    if received != calculated {
      return Nothing;
    }
    var frame := buf[..|buf| - 2];
    if !IsKnownFunctionCode(frame[1]) {
      return Nothing;
    }
    return Found(Frame(frame[0], frame[1..]), |buf|);
  }

  lemma {:induction false} LittleEndian(lo: Byte, hi: Byte, crc: U16)
    ensures BeU16(hi, lo) == crc <==> [lo, hi] == LeBytes(crc)
  {
    assert LeBytes(crc)[0] == crc % 256 && LeBytes(crc)[1] == crc / 256;
  }

  // ── Round trip and error detection ───────────────────────────────────────

  /** What is accepted: the bytes leave remainder zero, and length and function code are right. */
  lemma {:induction false} AcceptedExactly(buf: seq<Byte>)
    ensures Parsed(buf).Found? <==> |buf| >= MIN_RTU_FRAME && DividesOut(buf) && IsKnownFunctionCode(buf[1])
  {
    hide DividesOut, Crc16, LeBytes;
    if |buf| >= MIN_RTU_FRAME {
      var data, lo, hi := buf[..|buf| - 2], buf[|buf| - 2], buf[|buf| - 1];
      assert buf == data + [lo, hi] && buf[|buf| - 2..] == [lo, hi];
      CrcResidue(data, lo, hi);
    }
  }

  lemma {:induction false} FrameDividesOut(data: seq<Byte>)
    ensures DividesOut(EncodedFrame(data))
  {
    hide DividesOut, Crc16;
    var crc := Crc16(data);
    CrcResidue(data, crc % 256, crc / 256);
    assert LeBytes(crc) == [crc % 256, crc / 256];
  }

  /** An encoded frame parses back to its slave address and PDU exactly when it is long enough and its code is known. */
  lemma {:induction false} FrameRoundTrip(data: seq<Byte>)
    ensures Parsed(EncodedFrame(data))
         == if |data| >= 3 && IsKnownFunctionCode(data[1]) then Found(Frame(data[0], data[1..]), |data| + 2) else Nothing
  {
    hide Crc16;
    var frame := EncodedFrame(data);
    assert frame[..|frame| - 2] == data && frame[|frame| - 2..] == LeBytes(Crc16(data));
  }

  /** Any change of an encoded frame that lies within sixteen consecutive bits, checksum included, is rejected. */
  lemma {:induction false} BurstRejected(data: seq<Byte>, received: seq<Byte>, start: nat)
    requires BurstApart(EncodedFrame(data), received, start)
    ensures Parsed(received).Nothing?
  {
    FrameDividesOut(data);
    BurstDetected(EncodedFrame(data), received, start);
    AcceptedExactly(received);
  }

  /** Any change of an odd number of bits of an encoded frame is rejected. */
  lemma {:induction false} OddErrorRejected(data: seq<Byte>, received: seq<Byte>)
    requires OddApart(EncodedFrame(data), received)
    ensures Parsed(received).Nothing?
  {
    FrameDividesOut(data);
    OddErrorDetected(EncodedFrame(data), received);
    AcceptedExactly(received);
  }

  // ── The server loop ──────────────────────────────────────────────────────

  function AsFrame(p: Parse): seq<Frame> {
    if p.Found? then [p.frame] else []
  }

  /** The frames dispatched from a buffer on: each chunk completes at most one frame, and silence forgets the rest. */
  function Expected(buf: seq<Byte>, events: seq<Event>): seq<Frame>
    decreases |events|
  {
    if events == [] then []
    else match events[0]
         case Chunk(bytes) =>
           var p := Parsed(buf + bytes);
           AsFrame(p) + Expected(if p.Found? then [] else buf + bytes, events[1..])
         case Silence => Expected([], events[1..])
  }

  lemma {:induction false} EmptyUnparseable()
    ensures Parsed([]).Nothing?
  {
  }

  /** What the server does with one frame: the new store, and the reply written. */
  function Answer(st: Store.State, frame: Frame): (Store.State, seq<Byte>) {
    var (next, rsp) := Processed(st, frame.slave, frame.pdu);
    (next, if rsp.Some? then EncodedFrame(rsp.value) else [])
  }

  // The body of the inner loop: process one frame and write the reply, if there is one.
  method Respond(
      frame: Frame, store: Store.SlaveStore, rspBuf: BytesMut, frameBuf: BytesMut, table: array<U16>)
    returns (bytes: seq<Byte>)
    requires store.Valid() && rspBuf != frameBuf && IsCrcTable(table[..])
    modifies rspBuf, frameBuf, store.coils, store.holdingRegisters
    ensures (store.Value(), bytes) == Answer(old(store.Value()), frame)
  {
    hide Processed, EncodedFrame, IsCrcTable;
    var rsp := ProcessServerRequest(frame.pdu, frame.slave, store, rspBuf);
    bytes := [];
    if rsp.Some? {
      frameBuf.Clear();
      EncodeRtuFrame(rsp.value, frameBuf, table);
      bytes := frameBuf.data;
      assert [] + EncodedFrame(rsp.value) == EncodedFrame(rsp.value);
    }
  }

  /** The inner loop: it ends after one frame, because a frame always takes the whole buffer. */
  method DispatchAll(
      buf: BytesMut, store: Store.SlaveStore, rspBuf: BytesMut, frameBuf: BytesMut, table: array<U16>, sent: seq<Byte>,
      ghost start: Store.State, ghost before: seq<Frame>)
    returns (written: seq<Byte>)
    requires store.Valid() && rspBuf != frameBuf && buf != rspBuf && buf != frameBuf && IsCrcTable(table[..])
    requires (store.Value(), sent) == Answers(start, before, Answer)
    modifies buf, rspBuf, frameBuf, store.coils, store.holdingRegisters
    ensures (store.Value(), written) == Answers(start, before + AsFrame(Parsed(old(buf.data))), Answer)
    ensures buf.data == if Parsed(old(buf.data)).Found? then [] else old(buf.data)
    ensures Parsed(buf.data).Nothing?
  {
    hide IsCrcTable, Answers, Answer;
    written := sent;
    EmptyUnparseable();
    assert before + [] == before;
    var p := TryParseServerRtu(buf.data, table);
    if p.Found? {
      OneMoreAnswer(start, before, p.frame, Answer);
    }
    while p.Found?
      invariant p == Parsed(buf.data)
      invariant buf.data == old(buf.data) || (buf.data == [] && Parsed(old(buf.data)).Found?)
      invariant (store.Value(), written)
             == Answers(start, if buf.data == old(buf.data) then before else before + AsFrame(Parsed(old(buf.data))), Answer)
      decreases |buf.data|
    {
      buf.Advance(p.consumed);
      var bytes := Respond(p.frame, store, rspBuf, frameBuf, table);
      written := written + bytes;
      p := TryParseServerRtu(buf.data, table);
    }
  }

  lemma {:induction false} ExpectedChunk(buf: seq<Byte>, bytes: seq<Byte>, rest: seq<Event>)
    ensures Expected(buf, [Chunk(bytes)] + rest)
         == AsFrame(Parsed(buf + bytes)) + Expected(if Parsed(buf + bytes).Found? then [] else buf + bytes, rest)
  {
    hide Parsed;
    assert ([Chunk(bytes)] + rest)[1..] == rest;
  }

  lemma {:induction false} ExpectedSilence(buf: seq<Byte>, rest: seq<Event>)
    ensures Expected(buf, [Silence] + rest) == Expected([], rest)
  {
    hide Parsed;
    assert ([Silence] + rest)[1..] == rest;
  }

  lemma {:induction false} ExpectedEnd(buf: seq<Byte>)
    ensures Expected(buf, []) == []
  {
  }

  /**
   A run of the server.  At every loop head the buffer is empty or unparseable, so a silence always empties it; the
   store and the bytes written are those of answering the frames of the event semantics in turn.
   */
  method ServeForever(events: seq<Event>, store: Store.SlaveStore, table: array<U16>) returns (written: seq<Byte>)
    requires store.Valid() && IsCrcTable(table[..])
    modifies store.coils, store.holdingRegisters
    ensures (store.Value(), written) == Answers(old(store.Value()), Expected([], events), Answer)
  {
    hide IsCrcTable, Parsed, Expected, Answers;
    var buf := new BytesMut();
    var rspBuf := new BytesMut();
    var frameBuf := new BytesMut();
    written := [];
    ghost var start, frames := store.Value(), [];
    NoAnswers(start, Answer);
    EmptyUnparseable();
    for i := 0 to |events|
      invariant fresh(buf) && fresh(rspBuf) && fresh(frameBuf)
      invariant Parsed(buf.data).Nothing?
      invariant (store.Value(), written) == Answers(start, frames, Answer)
      invariant frames + Expected(buf.data, events[i..]) == Expected([], events)
    {
      ghost var rest := events[i + 1..];
      assert events[i..] == [events[i]] + rest;
      match events[i] {
        case Chunk(bytes) =>
          ExpectedChunk(buf.data, bytes, rest);
          buf.PutSlice(bytes);
          ghost var p := Parsed(buf.data);
          written := DispatchAll(buf, store, rspBuf, frameBuf, table, written, start, frames);
          Associates(frames, AsFrame(p), Expected(buf.data, rest));
          frames := frames + AsFrame(p);
        case Silence =>
          ExpectedSilence(buf.data, rest);
          if buf.data != [] {
            var p := TryParseServerRtu(buf.data, table);
            if p.Nothing? {
              buf.Clear();
            }
          }
      }
    }
    ExpectedEnd(buf.data);
    assert events[|events|..] == [] && frames + [] == frames;
  }

  function ChunkCount(events: seq<Event>): nat {
    if events == [] then 0 else (if events[0].Chunk? then 1 else 0) + ChunkCount(events[1..])
  }

  lemma {:induction false} AtMostOnePerChunk(buf: seq<Byte>, events: seq<Event>)
    ensures |Expected(buf, events)| <= ChunkCount(events)
    decreases |events|
  {
    hide Parsed;
    if events != [] {
      match events[0] {
        case Chunk(bytes) =>
          AtMostOnePerChunk(if Parsed(buf + bytes).Found? then [] else buf + bytes, events[1..]);
        case Silence => AtMostOnePerChunk([], events[1..]);
      }
    }
  }

  /** What comes after a silence is served as by a fresh server. */
  lemma {:induction false} SilenceRestarts(buf: seq<Byte>, before: seq<Event>, rest: seq<Event>)
    ensures Expected(buf, before + [Silence] + rest) == Expected(buf, before) + Expected([], rest)
    decreases |before|
  {
    hide Parsed;
    var all := before + [Silence] + rest;
    if before == [] {
      assert all[0] == Silence && all[1..] == rest;
    } else {
      assert all[0] == before[0] && all[1..] == before[1..] + [Silence] + rest;
      match before[0] {
        case Chunk(bytes) =>
          SilenceRestarts(if Parsed(buf + bytes).Found? then [] else buf + bytes, before[1..], rest);
        case Silence => SilenceRestarts([], before[1..], rest);
      }
    }
  }

  /** No chunk boundary before the last one already ends in a parseable frame. */
  ghost predicate EarlyBoundariesUnparseable(buf: seq<Byte>, parts: seq<seq<Byte>>)
    decreases |parts|
  {
    |parts| > 1 ==> Parsed(buf + parts[0]).Nothing? && EarlyBoundariesUnparseable(buf + parts[0], parts[1..])
  }

  lemma {:induction false} ChunksRun(buf: seq<Byte>, parts: seq<seq<Byte>>, after: seq<Event>)
    requires parts != [] && EarlyBoundariesUnparseable(buf, parts)
    ensures Expected(buf, Chunks(parts) + after)
         == AsFrame(Parsed(buf + Joined(parts)))
            + Expected(if Parsed(buf + Joined(parts)).Found? then [] else buf + Joined(parts), after)
    decreases |parts|
  {
    hide Parsed, Expected;
    var first, rest := parts[0], Chunks(parts[1..]) + after;
    assert Chunks(parts) + after == [Chunk(first)] + rest;
    ExpectedChunk(buf, first, rest);
    Associates(buf, first, Joined(parts[1..]));
    if |parts| == 1 {
      assert Chunks(parts[1..]) + after == after && Joined(parts[1..]) == [];
      assert buf + first + [] == buf + first;
    } else {
      ChunksRun(buf + first, parts[1..], after);
      assert [] + Expected(buf + first, rest) == Expected(buf + first, rest);
    }
  }

  /**
   A frame that starts after a silence is dispatched exactly once, wherever it is cut, as long as no earlier cut
   already leaves a parseable frame.
   */
  lemma {:induction false} FrameDispatchedOnce(
      before: seq<Event>, parts: seq<seq<Byte>>, data: seq<Byte>, after: seq<Event>)
    requires |data| >= 3 && IsKnownFunctionCode(data[1]) && Joined(parts) == EncodedFrame(data)
    requires EarlyBoundariesUnparseable([], parts)
    ensures Expected([], before + [Silence] + (Chunks(parts) + after))
         == Expected([], before) + [Frame(data[0], data[1..])] + Expected([], after)
  {
    hide Parsed, EncodedFrame;
    SilenceRestarts([], before, Chunks(parts) + after);
    ChunksRun([], parts, after);
    assert [] + Joined(parts) == Joined(parts);
    FrameRoundTrip(data);
    assert Expected([], before) + ([Frame(data[0], data[1..])] + Expected([], after))
        == Expected([], before) + [Frame(data[0], data[1..])] + Expected([], after);
  }

  /** The same for a frame on its own. */
  lemma {:induction false} FrameServed(parts: seq<seq<Byte>>, data: seq<Byte>)
    requires |data| >= 3 && IsKnownFunctionCode(data[1]) && Joined(parts) == EncodedFrame(data)
    requires EarlyBoundariesUnparseable([], parts)
    ensures Expected([], Chunks(parts)) == [Frame(data[0], data[1..])]
  {
    hide Parsed, EncodedFrame, Expected;
    ChunksRun([], parts, []);
    assert [] + Joined(parts) == Joined(parts) && Chunks(parts) + [] == Chunks(parts);
    FrameRoundTrip(data);
    ExpectedEnd([]);
    assert [Frame(data[0], data[1..])] + [] == [Frame(data[0], data[1..])];
  }

  lemma {:induction false} FramesFit(buf: seq<Byte>, parts: seq<seq<Byte>>, frame: Frame)
    requires frame in Expected(buf, Chunks(parts))
    ensures |frame.pdu| + 3 <= |buf + Joined(parts)|
    decreases |parts|
  {
    hide Parsed, Expected;
    if parts == [] {
      ExpectedEnd(buf);
    } else {
      var first, rest := parts[0], Chunks(parts[1..]);
      ExpectedChunk(buf, first, rest);
      ParsedSize(buf + first);
      var next := if Parsed(buf + first).Found? then [] else buf + first;
      if frame in Expected(next, rest) {
        FramesFit(next, parts[1..], frame);
      }
    }
  }

  lemma {:induction false} ParsedSize(buf: seq<Byte>)
    ensures Parsed(buf).Found? ==> |buf| >= MIN_RTU_FRAME && |Parsed(buf).frame.pdu| + 3 == |buf|
  {
    hide Crc16;
  }

  /** If an earlier cut does leave a parseable frame, the frame itself is never dispatched. */
  lemma {:induction false} EarlyCutLoses(buf: seq<Byte>, parts: seq<seq<Byte>>, frame: Frame)
    requires NonEmpty(parts) && !EarlyBoundariesUnparseable(buf, parts)
    requires |frame.pdu| + 3 == |buf + Joined(parts)|
    ensures frame !in Expected(buf, Chunks(parts))
    decreases |parts|
  {
    hide Parsed, Expected;
    var first, rest := parts[0], parts[1..];
    NonEmptyRest(parts);
    JoinedNonEmpty(rest);
    ExpectedChunk(buf, first, Chunks(rest));
    ParsedSize(buf + first);
    if Parsed(buf + first).Found? {
      if frame in Expected([], Chunks(rest)) {
        FramesFit([], rest, frame);
      }
    } else {
      EarlyCutLoses(buf + first, rest, frame);
    }
  }

  /** Between two silences a valid frame is dispatched, once and alone, if and only if no earlier cut is parseable. */
  lemma {:induction false} DispatchedExactly(
      before: seq<Event>, parts: seq<seq<Byte>>, data: seq<Byte>, after: seq<Event>)
    requires |data| >= 3 && IsKnownFunctionCode(data[1]) && Joined(parts) == EncodedFrame(data) && NonEmpty(parts)
    ensures Expected([], before + [Silence] + (Chunks(parts) + ([Silence] + after)))
            == Expected([], before) + [Frame(data[0], data[1..])] + Expected([], after)
            <==> EarlyBoundariesUnparseable([], parts)
    ensures Frame(data[0], data[1..]) in Expected([], Chunks(parts)) <==> EarlyBoundariesUnparseable([], parts)
  {
    hide Parsed, EncodedFrame, EarlyBoundariesUnparseable, Expected, IsKnownFunctionCode;
    var frame, mine := Frame(data[0], data[1..]), Expected([], Chunks(parts));
    assert [] + Joined(parts) == Joined(parts);
    if EarlyBoundariesUnparseable([], parts) {
      FrameServed(parts, data);
    } else {
      EarlyCutLoses([], parts, frame);
    }
    SilenceRestarts([], before, Chunks(parts) + ([Silence] + after));
    assert Chunks(parts) + ([Silence] + after) == Chunks(parts) + [Silence] + after;
    SilenceRestarts([], Chunks(parts), after);
    SameMiddle(Expected([], before), mine, [frame], Expected([], after));
  }

  /** And there are such frames: any that starts with a valid frame, cut behind it, is served as that one. */
  lemma {:induction false} EarlyCutHappens(first: seq<Byte>, more: seq<Byte>)
    requires |first| >= 3 && IsKnownFunctionCode(first[1])
    ensures var inner, data := EncodedFrame(first), EncodedFrame(first) + more;
            var parts := [inner, EncodedFrame(data)[|inner|..]];
            && IsKnownFunctionCode(data[1]) && NonEmpty(parts) && Joined(parts) == EncodedFrame(data)
            && !EarlyBoundariesUnparseable([], parts)
            && Frame(first[0], first[1..]) in Expected([], Chunks(parts))
  {
    hide Parsed, IsKnownFunctionCode, Expected, Crc16;
    var inner, data := EncodedFrame(first), EncodedFrame(first) + more;
    var tail := EncodedFrame(data)[|inner|..];
    var parts := [inner, tail];
    assert tail == more + LeBytes(Crc16(data)) && inner + tail == EncodedFrame(data);
    assert parts[1..] == [tail] && tail + [] == tail;
    JoinedOne([tail]);
    FrameRoundTrip(first);
    assert [] + inner == inner;
    ExpectedChunk([], inner, Chunks([tail]));
    assert Chunks(parts) == [Chunk(inner)] + Chunks([tail]);
  }

  lemma {:induction false} SameMiddle(a: seq<Frame>, b: seq<Frame>, c: seq<Frame>, d: seq<Frame>)
    ensures a + (b + d) == a + c + d <==> b == c
  {
    if a + (b + d) == a + c + d {
      assert |b| == |c|;
      assert b == (a + (b + d))[|a|..|a| + |b|] && c == (a + c + d)[|a|..|a| + |c|];
    } else if b == c {
      Associates(a, b, d);
    }
  }

  lemma {:induction false} EarlyCutServes(buf: seq<Byte>, parts: seq<seq<Byte>>)
    requires !EarlyBoundariesUnparseable(buf, parts)
    ensures Expected(buf, Chunks(parts)) != []
    decreases |parts|
  {
    hide Parsed, Expected;
    ExpectedChunk(buf, parts[0], Chunks(parts[1..]));
    if Parsed(buf + parts[0]).Nothing? {
      EarlyCutServes(buf + parts[0], parts[1..]);
    }
  }

  /**
   A frame between two silences that was hit by a burst of up to sixteen bits is dropped without a trace if and only if
   no earlier cut leaves a parseable frame.
   */
  lemma {:induction false} BurstDropped(
      before: seq<Event>, parts: seq<seq<Byte>>, data: seq<Byte>, start: nat, after: seq<Event>)
    requires parts != [] && BurstApart(EncodedFrame(data), Joined(parts), start)
    ensures Expected([], before + [Silence] + (Chunks(parts) + ([Silence] + after)))
            == Expected([], before) + Expected([], after)
            <==> EarlyBoundariesUnparseable([], parts)
  {
    hide Parsed, EncodedFrame, BurstApart, Expected, EarlyBoundariesUnparseable;
    var mine := Expected([], Chunks(parts));
    assert [] + Joined(parts) == Joined(parts);
    if EarlyBoundariesUnparseable([], parts) {
      ChunksRun([], parts, []);
      assert Chunks(parts) + [] == Chunks(parts);
      BurstRejected(data, Joined(parts), start);
      ExpectedEnd(Joined(parts));
      assert mine == [];
    } else {
      EarlyCutServes([], parts);
    }
    SilenceRestarts([], before, Chunks(parts) + ([Silence] + after));
    assert Chunks(parts) + ([Silence] + after) == Chunks(parts) + [Silence] + after;
    SilenceRestarts([], Chunks(parts), after);
    SameMiddle(Expected([], before), mine, [], Expected([], after));
    assert Expected([], before) + [] == Expected([], before);
  }

  lemma {:induction false} JoinedUnparseable(first: seq<Byte>, second: seq<Byte>)
    ensures Parsed(EncodedFrame(first) + EncodedFrame(second)).Nothing?
  {
    hide DividesOut;
    FrameDividesOut(first);
    FrameDividesOut(second);
    JoinedNeverDivides(EncodedFrame(first), EncodedFrame(second));
    AcceptedExactly(EncodedFrame(first) + EncodedFrame(second));
  }

  /** The chunking does matter: any two valid frames are both dispatched from two reads, and both lost in one. */
  lemma {:induction false} JoinedFramesLost(first: seq<Byte>, second: seq<Byte>)
    requires |first| >= 3 && IsKnownFunctionCode(first[1]) && |second| >= 3 && IsKnownFunctionCode(second[1])
    ensures var a, b := EncodedFrame(first), EncodedFrame(second);
            && Expected([], [Chunk(a)] + ([Chunk(b)] + [Silence]))
               == [Frame(first[0], first[1..])] + [Frame(second[0], second[1..])]
            && Expected([], [Chunk(a + b)] + [Silence]) == []
  {
    hide Parsed, Expected, EncodedFrame, IsKnownFunctionCode;
    var a, b := EncodedFrame(first), EncodedFrame(second);
    FrameRoundTrip(first);
    FrameRoundTrip(second);
    JoinedUnparseable(first, second);
    assert [] + a == a && [] + b == b && [] + (a + b) == a + b;
    ExpectedChunk([], a, [Chunk(b)] + [Silence]);
    ExpectedChunk([], b, [Silence]);
    ExpectedChunk([], a + b, [Silence]);
    assert [Silence] + [] == [Silence];
    ExpectedSilence([], []);
    ExpectedSilence(a + b, []);
    ExpectedEnd([]);
  }

  // ── The client side ──────────────────────────────────────────────────────

  function ExpectedPduLen(req: Request): Option<nat> {
    match req
    case ReadCoils(_, qty) => Some(2 + CeilDiv8(qty))
    case ReadDiscreteInputs(_, qty) => Some(2 + CeilDiv8(qty))
    case ReadHoldingRegisters(_, qty) => Some(2 + qty * 2)
    case ReadInputRegisters(_, qty) => Some(2 + qty * 2)
    case WriteSingleCoil(_, _) => Some(5)
    case WriteSingleRegister(_, _) => Some(5)
    case WriteMultipleCoils(_, _) => Some(5)
    case WriteMultipleRegisters(_, _) => Some(5)
    case ReadWriteMultipleRegisters(_, qty, _, _) => Some(2 + qty * 2)
    case MaskWriteRegister(_, _, _) => Some(7)
    case Diagnostic(_, _) => Some(5)
    case Disconnect => None
  }

  /** What the client makes of the bytes it received for a request to `slave`. */
  function Received(buf: seq<Byte>, slave: Byte): Outcome {
    if |buf| < MIN_RTU_FRAME then Err(Timeout)
    else
      var data := buf[..|buf| - 2];
      if buf[|buf| - 2..] != LeBytes(Crc16(data)) then Err(Protocol)
      else if data[0] != slave then Err(Protocol)
      else match Responses.DecodedPdu(data[1..])
           case Ok(rsp) => Ok(rsp)
           case Err(_) => Err(Protocol)
  }

  lemma {:induction false} ReplyLength(st: Store.State, req: Request)
    requires Requests.InRange(req)
    ensures ExpectedPduLen(req).Some?
    ensures |Responses.EncodedInto(Reply(req, Store.Served(st, req).1)).appended|
         == if Store.Served(st, req).1.Ok? then ExpectedPduLen(req).value else 2
    ensures 2 < ExpectedPduLen(req).value <= MAX_PDU_SIZE
  {
    hide Store.BitAt, Store.RegAt, Store.WithBit, Store.WithBits, Store.WithReg, Store.WithRegs, Store.Masked,
      PackCoils, PackWords;
    Responses.EncoderLimits(Reply(req, Store.Served(st, req).1));
  }

  /**
   Length agreement: the reply frame to any decodable request has the length the client waits for when the service
   accepted it, and the minimum length, strictly smaller, when the service raised an exception.
   */
  lemma {:induction false} LengthAgreement(st: Store.State, slave: Byte, pdu: seq<Byte>)
    requires slave != 0 && Requests.DecodedPdu(pdu).Ok?
    ensures Processed(st, slave, pdu).1.Some?
    ensures var req := Requests.DecodedPdu(pdu).value;
            var frame := EncodedFrame(Processed(st, slave, pdu).1.value);
            && ExpectedPduLen(req).Some?
            && |frame| == (if Store.Served(st, req).1.Ok? then 1 + ExpectedPduLen(req).value + CRC_SIZE else MIN_RTU_FRAME)
            && MIN_RTU_FRAME < 1 + ExpectedPduLen(req).value + CRC_SIZE <= 256
  {
    hide Processed, Requests.Decoded, Store.Served, ExpectedPduLen;
    AnsweredExactly(st, slave, pdu);
    Requests.RequestReencodes(pdu);
    ReplyLength(st, Requests.DecodedPdu(pdu).value);
  }

  /** The client reads back the reply frame of its own slave, and refuses that of any other. */
  lemma {:induction false} ReceivedReply(rsp: seq<Byte>, slave: Byte)
    requires |rsp| >= 3
    ensures Received(EncodedFrame(rsp), slave)
         == if rsp[0] != slave then Err(Protocol)
            else match Responses.DecodedPdu(rsp[1..]) case Ok(r) => Ok(r) case Err(_) => Err(Protocol)
  {
    hide Crc16, Responses.DecodedPdu;
    var frame := EncodedFrame(rsp);
    assert frame[..|frame| - 2] == rsp && frame[|frame| - 2..] == LeBytes(Crc16(rsp));
  }
}
