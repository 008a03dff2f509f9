/**
 ASCII framing: the LRC and hex encoder of `src/codec.rs`, the line parser and the server loop of
 `src/transport/ascii.rs`.
 */
module Ascii {
  import opened Wire
  import opened Errors
  import opened SerialLine
  import opened SendRecv
  import Responses = ResponseCodec
  import Store = SlaveStore

  const START: Byte := 58
  const CR: Byte := 13
  const LF: Byte := 10

  // ── The encoder ──────────────────────────────────────────────────────────

  /** Wrapping addition of the bytes onto `acc`. */
  function WrappingSum(acc: Byte, data: seq<Byte>): Byte
    decreases |data|
  {
    if data == [] then acc else WrappingSum((acc + data[0]) % 0x100, data[1..])
  }

  function Lrc(data: seq<Byte>): Byte {
    (0x100 - WrappingSum(0, data)) % 0x100
  }

  function HexDigit(n: nat): Byte
    requires n < 16
  {
    if n < 10 then 48 + n else 55 + n
  }

  function HexOf(data: seq<Byte>): (hex: seq<Byte>)
    ensures |hex| == 2 * |data|
  {
    if data == [] then [] else [HexDigit(data[0] / 16), HexDigit(data[0] % 16)] + HexOf(data[1..])
  }

  function EncodedFrame(data: seq<Byte>): seq<Byte> {
    [START] + HexOf(data + [Lrc(data)]) + [CR, LF]
  }

  method CalculateLrc(data: seq<Byte>) returns (lrc: Byte)
    ensures lrc == Lrc(data)
  {
    var acc: Byte := 0;
    for i := 0 to |data|
      invariant WrappingSum(acc, data[i..]) == WrappingSum(0, data)
    {
      assert data[i..][0] == data[i] && data[i..][1..] == data[i + 1..];
      acc := (acc + data[i]) % 0x100;
    }
    lrc := (0x100 - acc) % 0x100;
  }

  lemma {:induction false} HexAppend(a: seq<Byte>, b: seq<Byte>)
    ensures HexOf(a + b) == HexOf(a) + HexOf(b)
  {
    if a == [] {
      assert a + b == b;
    } else {
      assert (a + b)[1..] == a[1..] + b;
      HexAppend(a[1..], b);
    }
  }

  method EncodeFrameInto(data: seq<Byte>, buf: BytesMut)
    modifies buf
    ensures buf.data == old(buf.data) + EncodedFrame(data)
  {
    var lrc := CalculateLrc(data);
    buf.PutU8(START);
    for i := 0 to |data|
      invariant buf.data + HexOf(data[i..]) == old(buf.data) + [START] + HexOf(data)
    {
      assert data[i..][0] == data[i] && data[i..][1..] == data[i + 1..];
      buf.PutSlice([HexDigit(data[i] / 16), HexDigit(data[i] % 16)]);
    }
    assert data[|data|..] == [] && buf.data == old(buf.data) + [START] + HexOf(data);
    buf.PutSlice([HexDigit(lrc / 16), HexDigit(lrc % 16)]);
    HexAppend(data, [lrc]);
    assert HexOf([lrc]) == [HexDigit(lrc / 16), HexDigit(lrc % 16)];
    assert buf.data == old(buf.data) + ([START] + HexOf(data + [lrc]));
    buf.PutU8(CR);
    buf.PutU8(LF);
    assert [CR] + [LF] == [CR, LF];
  }

  // ── The parser ───────────────────────────────────────────────────────────

  function Nibble(c: Byte): (n: Option<nat>)
    ensures n.Some? ==> n.value < 16
  {
    if 48 <= c <= 57 then Some(c - 48)
    else if 65 <= c <= 70 then Some(c - 65 + 10)
    else if 97 <= c <= 102 then Some(c - 97 + 10)
    else None
  }

  function HexDecodeByte(hi: Byte, lo: Byte): (b: Option<Byte>)
    ensures b.Some? <==> Nibble(hi).Some? && Nibble(lo).Some?
  {
    if Nibble(hi).Some? && Nibble(lo).Some? then Some(Nibble(hi).value * 16 + Nibble(lo).value) else None
  }

  function HexDecoded(hex: seq<Byte>): (bytes: Option<seq<Byte>>)
    requires |hex| % 2 == 0
    ensures bytes.Some? ==> |bytes.value| == |hex| / 2
  {
    if hex == [] then Some([])
    else if HexDecodeByte(hex[0], hex[1]).None? || HexDecoded(hex[2..]).None? then None
    else Some([HexDecodeByte(hex[0], hex[1]).value] + HexDecoded(hex[2..]).value)
  }

  /** The bytes of a line with a valid checksum, as slave address and PDU. */
  function CheckedFrame(bytes: seq<Byte>): Option<Frame> {
    if |bytes| < 2 then None
    else
      var data := bytes[..|bytes| - 1];
      if bytes[|bytes| - 1] == Lrc(data) && |data| >= 2 then Some(Frame(data[0], data[1..])) else None
  }

  /** A line without its CRLF. */
  function DecodedLine(content: seq<Byte>): Option<Frame> {
    if content == [] || content[0] != START || |content[1..]| % 2 != 0 then None
    else
      var bytes := HexDecoded(content[1..]);
      if bytes.None? then None else CheckedFrame(bytes.value)
  }

  /** The position of the first CRLF. */
  function FirstCrlf(s: seq<Byte>): (p: Option<nat>)
    ensures p.Some? ==> p.value + 2 <= |s|
  {
    if |s| < 2 then None
    else if s[0] == CR && s[1] == LF then Some(0)
    else
      var rest := FirstCrlf(s[1..]);
      if rest.None? then None else Some(rest.value + 1)
  }

  function Later(p: Parse, skipped: nat): Parse {
    if p.Nothing? then Nothing else Found(p.frame, p.consumed + skipped)
  }

  /** The first valid frame, after whatever garbage lines precede it. */
  function FirstFrame(s: seq<Byte>): (p: Parse)
    ensures p.Found? ==> 2 <= p.consumed <= |s|
    decreases |s|
  {
    var crlf := FirstCrlf(s);
    if crlf.None? then Nothing
    else
      var frame := DecodedLine(s[..crlf.value]);
      if frame.Some? then Found(frame.value, crlf.value + 2)
      else Later(FirstFrame(s[crlf.value + 2..]), crlf.value + 2)
  }

  method FindCrlf(buf: seq<Byte>, offset: nat) returns (p: Option<nat>)
    requires offset <= |buf|
    ensures p == FirstCrlf(buf[offset..])
  {
    var i := offset;
    while i + 2 <= |buf|
      invariant offset <= i <= |buf|
      invariant FirstCrlf(buf[offset..])
             == if FirstCrlf(buf[i..]).None? then None else Some(FirstCrlf(buf[i..]).value + (i - offset))
    {
      assert buf[i..][1..] == buf[i + 1..];
      if buf[i] == CR && buf[i + 1] == LF {
        return Some(i - offset);
      }
      i := i + 1;
    }
    p := None;
  }

  method DecodeHex(hex: seq<Byte>) returns (ok: bool, bytes: seq<Byte>)
    requires |hex| % 2 == 0
    ensures ok == HexDecoded(hex).Some?
    ensures ok ==> bytes == HexDecoded(hex).value
  {
    bytes := [];
    var i := 0;
    while i < |hex|
      invariant 0 <= i <= |hex| && i % 2 == 0
      invariant HexDecoded(hex).Some? == HexDecoded(hex[i..]).Some?
      invariant HexDecoded(hex).Some? ==> HexDecoded(hex).value == bytes + HexDecoded(hex[i..]).value
    {
      assert hex[i..][2..] == hex[i + 2..];
      var b := HexDecodeByte(hex[i], hex[i + 1]);
      if b.None? {
        return false, [];
      }
      bytes := bytes + [b.value];
      i := i + 2;
    }
    ok := true;
  }

  // The attempt to decode one line.
  method DecodeLine(content: seq<Byte>) returns (frame: Option<Frame>)
    ensures frame == DecodedLine(content)
  {
    if content != [] && content[0] == START {
      var hexChars := content[1..];
      if |hexChars| % 2 == 0 {
        var ok, bytes := DecodeHex(hexChars);
        if ok && |bytes| >= 2 {
          var data := bytes[..|bytes| - 1];
          var lrc := CalculateLrc(data);
          if bytes[|bytes| - 1] == lrc && |data| >= 2 {
            return Some(Frame(data[0], data[1..]));
          }
        }
      }
    }
    frame := None;
  }

  method TryParseAscii(buf: seq<Byte>) returns (p: Parse)
    ensures p == FirstFrame(buf)
  {
    hide DecodedLine, FirstCrlf;
    var offset := 0;
    assert buf[0..] == buf;
    while true
      invariant 0 <= offset <= |buf|
      invariant FirstFrame(buf) == Later(FirstFrame(buf[offset..]), offset)
      decreases |buf| - offset
    {
      var crlf := FindCrlf(buf, offset);
      if crlf.None? {
        return Nothing;
      }
      var lineEnd := offset + crlf.value + 2;
      var content := buf[offset..lineEnd - 2];
      assert content == buf[offset..][..crlf.value] && buf[offset..][crlf.value + 2..] == buf[lineEnd..];
      var frame := DecodeLine(content);
      if frame.Some? {
        return Found(frame.value, lineEnd);
      }
      offset := lineEnd;
    }
  }

  // ── The server loop ──────────────────────────────────────────────────────

  /** All valid frames of a byte stream: the valid ones among its CRLF-terminated lines, in order. */
  function Frames(s: seq<Byte>): seq<Frame>
    decreases |s|
  {
    var crlf := FirstCrlf(s);
    if crlf.None? then []
    else
      var frame := DecodedLine(s[..crlf.value]);
      (if frame.Some? then [frame.value] else []) + Frames(s[crlf.value + 2..])
  }

  lemma {:induction false} CrlfStable(s: seq<Byte>, more: seq<Byte>)
    requires FirstCrlf(s).Some?
    ensures FirstCrlf(s + more) == FirstCrlf(s)
  {
    if !(s[0] == CR && s[1] == LF) {
      assert (s + more)[1..] == s[1..] + more;
      CrlfStable(s[1..], more);
    }
  }

  // One line of a stream that goes on.
  lemma {:induction false} FramesLine(s: seq<Byte>, more: seq<Byte>)
    requires FirstCrlf(s).Some?
    ensures var p := FirstCrlf(s).value;
            Frames(s + more) == (if DecodedLine(s[..p]).Some? then [DecodedLine(s[..p]).value] else [])
                                + Frames(s[p + 2..] + more)
  {
    hide DecodedLine;
    var p := FirstCrlf(s).value;
    CrlfStable(s, more);
    assert (s + more)[..p] == s[..p] && (s + more)[p + 2..] == s[p + 2..] + more;
  }

  // The parser, one line at a time.
  lemma {:induction false} FirstFrameLine(s: seq<Byte>)
    ensures FirstCrlf(s).None? ==> FirstFrame(s).Nothing?
    ensures FirstCrlf(s).Some? ==>
              var p := FirstCrlf(s).value;
              FirstFrame(s) == if DecodedLine(s[..p]).Some? then Found(DecodedLine(s[..p]).value, p + 2)
                               else Later(FirstFrame(s[p + 2..]), p + 2)
  {
    hide DecodedLine, FirstCrlf;
  }

  /** What the parser finds is the first frame of every continuation of its input. */
  lemma {:induction false} FoundIsFirst(s: seq<Byte>, more: seq<Byte>)
    requires FirstFrame(s).Found?
    ensures Frames(s + more) == [FirstFrame(s).frame] + Frames(s[FirstFrame(s).consumed..] + more)
    decreases |s|
  {
    hide DecodedLine, Frames, FirstFrame, FirstCrlf;
    FirstFrameLine(s);
    FramesLine(s, more);
    var p := FirstCrlf(s).value;
    if DecodedLine(s[..p]).None? {
      var rest := s[p + 2..];
      FoundIsFirst(rest, more);
      assert rest[FirstFrame(rest).consumed..] == s[FirstFrame(s).consumed..];
      assert [] + Frames(rest + more) == Frames(rest + more);
    }
  }

  lemma {:induction false} NothingFound(s: seq<Byte>)
    requires FirstFrame(s).Nothing?
    ensures Frames(s) == []
    decreases |s|
  {
    hide DecodedLine;
    var crlf := FirstCrlf(s);
    if crlf.Some? {
      NothingFound(s[crlf.value + 2..]);
    }
  }

  /** However the stream goes on, its frames are those dispatched already and those the buffer starts. */
  ghost predicate Accounted(stream: seq<Byte>, dispatched: seq<Frame>, buf: seq<Byte>) {
    forall more: seq<Byte> :: Frames(stream + more) == dispatched + Frames(buf + more)
  }

  lemma {:induction false} AccountedChunk(stream: seq<Byte>, dispatched: seq<Frame>, buf: seq<Byte>, chunk: seq<Byte>)
    requires Accounted(stream, dispatched, buf)
    ensures Accounted(stream + chunk, dispatched, buf + chunk)
  {
    hide Frames;
    forall more: seq<Byte>
      ensures Frames(stream + chunk + more) == dispatched + Frames(buf + chunk + more)
    {
      assert stream + chunk + more == stream + (chunk + more) && buf + chunk + more == buf + (chunk + more);
    }
  }

  lemma {:induction false} AccountedFrame(stream: seq<Byte>, dispatched: seq<Frame>, buf: seq<Byte>)
    requires Accounted(stream, dispatched, buf) && FirstFrame(buf).Found?
    ensures Accounted(stream, dispatched + [FirstFrame(buf).frame], buf[FirstFrame(buf).consumed..])
  {
    hide Frames, FirstFrame;
    var f, n := FirstFrame(buf).frame, FirstFrame(buf).consumed;
    forall more: seq<Byte>
      ensures Frames(stream + more) == dispatched + [f] + Frames(buf[n..] + more)
    {
      FoundIsFirst(buf, more);
    }
  }

  lemma {:induction false} AccountedEnd(stream: seq<Byte>, dispatched: seq<Frame>, buf: seq<Byte>)
    requires Accounted(stream, dispatched, buf) && FirstFrame(buf).Nothing?
    ensures Frames(stream) == dispatched
  {
    hide Frames, FirstFrame;
    assert stream + [] == stream && buf + [] == buf;
    NothingFound(buf);
    assert dispatched + [] == dispatched;
  }

  /** The frames of each burst between silences, `burst` being the bytes since the last silence. */
  function Expected(burst: seq<Byte>, events: seq<Event>): seq<Frame>
    decreases |events|
  {
    if events == [] then Frames(burst)
    else match events[0]
         case Chunk(bytes) => Expected(burst + bytes, events[1..])
         case Silence => Frames(burst) + Expected([], events[1..])
  }

  /** What the server does with one frame: the new store, and the reply written. */
  function Answer(st: Store.State, frame: Frame): (Store.State, seq<Byte>) {
    var (next, rsp) := Processed(st, frame.slave, frame.pdu);
    (next, if rsp.Some? then EncodedFrame(rsp.value) else [])
  }

  // The body of the inner loop: process one frame and write the reply, if there is one.
  method Respond(frame: Frame, store: Store.SlaveStore, rspBuf: BytesMut, frameBuf: BytesMut)
    returns (bytes: seq<Byte>)
    requires store.Valid() && rspBuf != frameBuf
    modifies rspBuf, frameBuf, store.coils, store.holdingRegisters
    ensures (store.Value(), bytes) == Answer(old(store.Value()), frame)
  {
    hide Processed, EncodedFrame;
    var rsp := ProcessServerRequest(frame.pdu, frame.slave, store, rspBuf);
    bytes := [];
    if rsp.Some? {
      frameBuf.Clear();
      EncodeFrameInto(rsp.value, frameBuf);
      bytes := frameBuf.data;
      assert [] + EncodedFrame(rsp.value) == EncodedFrame(rsp.value);
    }
  }

  /** The inner loop: take frames off the buffer and answer them until nothing more can be parsed. */
  method DispatchAll(
      buf: BytesMut, store: Store.SlaveStore, rspBuf: BytesMut, frameBuf: BytesMut, sent: seq<Byte>,
      ghost start: Store.State, ghost stream: seq<Byte>, ghost before: seq<Frame>, ghost earlier: seq<Frame>)
    returns (written: seq<Byte>, ghost dispatched: seq<Frame>)
    requires store.Valid() && rspBuf != frameBuf && buf != rspBuf && buf != frameBuf
    requires Accounted(stream, earlier, buf.data)
    requires (store.Value(), sent) == Answers(start, before + earlier, Answer)
    modifies buf, rspBuf, frameBuf, store.coils, store.holdingRegisters
    ensures Accounted(stream, dispatched, buf.data) && FirstFrame(buf.data).Nothing?
    ensures (store.Value(), written) == Answers(start, before + dispatched, Answer)
  {
    hide Accounted, FirstFrame, Answers, Answer;
    written, dispatched := sent, earlier;
    var p := TryParseAscii(buf.data);
    while p.Found?
      invariant p == FirstFrame(buf.data)
      invariant Accounted(stream, dispatched, buf.data)
      invariant (store.Value(), written) == Answers(start, before + dispatched, Answer)
      decreases |buf.data|
    {
      AccountedFrame(stream, dispatched, buf.data);
      OneMoreAnswer(start, before + dispatched, p.frame, Answer);
      assert before + dispatched + [p.frame] == before + (dispatched + [p.frame]);
      buf.Advance(p.consumed);
      var bytes := Respond(p.frame, store, rspBuf, frameBuf);
      written := written + bytes;
      dispatched := dispatched + [p.frame];
      p := TryParseAscii(buf.data);
    }
  }

  /**
   A run of the server: the store and the bytes written are those of answering the valid lines of each burst in turn,
   however the burst was cut into chunks.
   */
  method ServeForever(events: seq<Event>, store: Store.SlaveStore) returns (written: seq<Byte>)
    requires store.Valid()
    modifies store.coils, store.holdingRegisters
    ensures (store.Value(), written) == Answers(old(store.Value()), Expected([], events), Answer)
  {
    hide Accounted, FirstFrame, Frames, Answers;
    var buf := new BytesMut();
    var rspBuf := new BytesMut();
    var frameBuf := new BytesMut();
    written := [];
    ghost var start := store.Value();
    ghost var before, burst, stream := [], [], [];
    AccountedStart();
    NoAnswers(start, Answer);
    assert before + burst == [];
    for i := 0 to |events|
      invariant fresh(buf) && fresh(rspBuf) && fresh(frameBuf)
      invariant (store.Value(), written) == Answers(start, before + burst, Answer)
      invariant Accounted(stream, burst, buf.data) && FirstFrame(buf.data).Nothing?
      invariant Expected([], events) == before + Expected(stream, events[i..])
    {
      assert events[i..][0] == events[i] && events[i..][1..] == events[i + 1..];
      match events[i] {
        case Chunk(bytes) =>
          AccountedChunk(stream, burst, buf.data, bytes);
          buf.PutSlice(bytes);
          stream := stream + bytes;
          written, burst := DispatchAll(buf, store, rspBuf, frameBuf, written, start, stream, before, burst);
        case Silence =>
          AccountedEnd(stream, burst, buf.data);
          buf.Clear();
          before, burst, stream := before + burst, [], [];
          AccountedStart();
          assert before + burst == before;
      }
    }
    AccountedEnd(stream, burst, buf.data);
    assert events[|events|..] == [];
  }

  lemma {:induction false} AccountedStart()
    ensures Accounted([], [], []) && FirstFrame([]).Nothing?
  {
    hide Frames;
    forall more: seq<Byte>
      ensures Frames([] + more) == [] + Frames([] + more)
    {
    }
  }

  // ── Fragmentation independence ───────────────────────────────────────────

  /** The bytes of each burst between silences. */
  function Bursts(burst: seq<Byte>, events: seq<Event>): seq<seq<Byte>>
    decreases |events|
  {
    if events == [] then [burst]
    else match events[0]
         case Chunk(bytes) => Bursts(burst + bytes, events[1..])
         case Silence => [burst] + Bursts([], events[1..])
  }

  function FramesOfAll(bursts: seq<seq<Byte>>): seq<Frame> {
    if bursts == [] then [] else Frames(bursts[0]) + FramesOfAll(bursts[1..])
  }

  /** The server's output depends on the bursts alone, not on how they were cut into chunks. */
  lemma {:induction false} ExpectedByBursts(burst: seq<Byte>, events: seq<Event>)
    ensures Expected(burst, events) == FramesOfAll(Bursts(burst, events))
    decreases |events|
  {
    hide Frames;
    if events == [] {
      assert [burst][1..] == [];
      assert Frames(burst) + [] == Frames(burst);
    } else if events[0].Chunk? {
      ExpectedByBursts(burst + events[0].bytes, events[1..]);
    } else {
      var rest := Bursts([], events[1..]);
      ExpectedByBursts([], events[1..]);
      assert ([burst] + rest)[1..] == rest;
    }
  }

  // ── Round trip and integrity ─────────────────────────────────────────────

  lemma {:induction false} NibbleDigit(n: nat)
    requires n < 16
    ensures Nibble(HexDigit(n)) == Some(n) && HexDigit(n) != CR && HexDigit(n) != LF && HexDigit(n) != START
  {
  }

  lemma {:induction false} HexRoundTrip(data: seq<Byte>)
    ensures HexDecoded(HexOf(data)) == Some(data)
  {
    if data != [] {
      NibbleDigit(data[0] / 16);
      NibbleDigit(data[0] % 16);
      HexRoundTrip(data[1..]);
      assert HexOf(data)[2..] == HexOf(data[1..]);
      assert HexDecodeByte(HexOf(data)[0], HexOf(data)[1]) == Some(data[0]);
      assert [data[0]] + data[1..] == data;
    }
  }

  lemma {:induction false} HexCharacters(data: seq<Byte>)
    ensures forall i :: 0 <= i < |HexOf(data)| ==> HexOf(data)[i] != CR && HexOf(data)[i] != LF
  {
    if data != [] {
      NibbleDigit(data[0] / 16);
      NibbleDigit(data[0] % 16);
      HexCharacters(data[1..]);
    }
  }

  /** Whether a CRLF starts at position i. */
  predicate CrlfAt(s: seq<Byte>, i: nat) {
    i + 1 < |s| && s[i] == CR && s[i + 1] == LF
  }

  lemma {:induction false} FirstCrlfIs(s: seq<Byte>, p: nat)
    requires CrlfAt(s, p) && forall i: nat :: i < p ==> !CrlfAt(s, i)
    ensures FirstCrlf(s) == Some(p)
  {
    if p > 0 {
      assert !CrlfAt(s, 0);
      forall i: nat | i < p - 1
        ensures !CrlfAt(s[1..], i)
      {
        assert !CrlfAt(s, i + 1);
      }
      FirstCrlfIs(s[1..], p - 1);
    }
  }

  lemma {:induction false} NoCrlf(s: seq<Byte>)
    requires forall i: nat :: !CrlfAt(s, i)
    ensures FirstCrlf(s) == None
  {
    if |s| >= 2 {
      assert !CrlfAt(s, 0);
      forall i: nat
        ensures !CrlfAt(s[1..], i)
      {
        assert !CrlfAt(s, i + 1);
      }
      NoCrlf(s[1..]);
    }
  }

  function Total(data: seq<Byte>): nat {
    if data == [] then 0 else data[0] + Total(data[1..])
  }

  lemma {:induction false} WrappingTotal(acc: Byte, data: seq<Byte>)
    ensures WrappingSum(acc, data) == (acc + Total(data)) % 0x100
    decreases |data|
  {
    if data != [] {
      WrappingTotal((acc + data[0]) % 0x100, data[1..]);
      ModAdd(acc + data[0], Total(data[1..]));
    }
  }

  lemma {:induction false} ModAdd(a: nat, b: nat)
    ensures (a % 0x100 + b) % 0x100 == (a + b) % 0x100
  {
  }

  lemma {:induction false} TotalAppend(a: seq<Byte>, b: seq<Byte>)
    ensures Total(a + b) == Total(a) + Total(b)
  {
    if a == [] {
      assert a + b == b;
    } else {
      assert (a + b)[1..] == a[1..] + b;
      TotalAppend(a[1..], b);
    }
  }

  /** A checksum byte is right exactly when everything, itself included, adds up to zero. */
  lemma {:induction false} ChecksumIsZeroSum(data: seq<Byte>, lrc: Byte)
    ensures lrc == Lrc(data) <==> Total(data + [lrc]) % 0x100 == 0
  {
    WrappingTotal(0, data);
    TotalAppend(data, [lrc]);
    assert [lrc][1..] == [];
    assert Total([lrc]) == lrc;
    ZeroSum(Total(data), lrc);
  }

  lemma {:induction false} ZeroSum(t: nat, lrc: Byte)
    ensures lrc == (0x100 - t % 0x100) % 0x100 <==> (t + lrc) % 0x100 == 0
  {
    ModAdd(t, lrc);
  }

  lemma {:induction false} FrameShape(data: seq<Byte>)
    ensures var f := EncodedFrame(data);
            && |f| == 2 * |data| + 5 && f[0] == START && f[|f| - 2] == CR && f[|f| - 1] == LF
            && f[1..|f| - 2] == HexOf(data + [Lrc(data)])
            && forall i :: 0 <= i < |f| - 2 ==> f[i] != CR && f[i] != LF
  {
    HexCharacters(data + [Lrc(data)]);
    var hex, f := HexOf(data + [Lrc(data)]), EncodedFrame(data);
    assert forall i :: 1 <= i < |f| - 2 ==> f[i] == hex[i - 1];
  }

  /** A frame parses back to its payload, all of it is consumed, and what follows does not matter. */
  lemma {:induction false} FrameRoundTrip(data: seq<Byte>, more: seq<Byte>)
    requires |data| >= 2
    ensures FirstFrame(EncodedFrame(data) + more) == Found(Frame(data[0], data[1..]), |EncodedFrame(data)|)
  {
    hide Lrc, HexOf, HexDecoded, FirstCrlf;
    var f, all := EncodedFrame(data), data + [Lrc(data)];
    FrameShape(data);
    forall i: nat | i < |f| - 2
      ensures !CrlfAt(f + more, i)
    {
    }
    assert CrlfAt(f + more, |f| - 2);
    FirstCrlfIs(f + more, |f| - 2);
    HexRoundTrip(all);
    assert (f + more)[..|f| - 2][1..] == f[1..|f| - 2];
    assert all[..|all| - 1] == data;
  }

  function Stream(payloads: seq<seq<Byte>>): seq<Byte> {
    if payloads == [] then [] else EncodedFrame(payloads[0]) + Stream(payloads[1..])
  }

  function FramesFor(payloads: seq<seq<Byte>>): seq<Frame>
    requires forall p :: p in payloads ==> |p| >= 2
  {
    if payloads == [] then []
    else
      assert payloads[0] in payloads;
      [Frame(payloads[0][0], payloads[0][1..])] + FramesFor(payloads[1..])
  }

  lemma {:induction false} StreamFrames(payloads: seq<seq<Byte>>)
    requires forall p :: p in payloads ==> |p| >= 2
    ensures Frames(Stream(payloads)) == FramesFor(payloads)
  {
    hide EncodedFrame, FirstFrame, DecodedLine;
    if payloads != [] {
      assert payloads[0] in payloads;
      var f, rest := EncodedFrame(payloads[0]), Stream(payloads[1..]);
      FrameRoundTrip(payloads[0], []);
      assert f + [] == f;
      FoundIsFirst(f, rest);
      assert f[|f|..] + rest == rest;
      StreamFrames(payloads[1..]);
    }
  }

  /** Frames sent back to back are served one by one, wherever the stream is cut, as long as the line is not silent. */
  lemma {:induction false} StreamServed(payloads: seq<seq<Byte>>, events: seq<Event>)
    requires forall p :: p in payloads ==> |p| >= 2
    requires Bursts([], events) == [Stream(payloads)]
    ensures Expected([], events) == FramesFor(payloads)
  {
    hide Frames, Stream, FramesFor, Expected, Bursts;
    ExpectedByBursts([], events);
    StreamFrames(payloads);
    assert [Stream(payloads)][1..] == [];
    assert FramesFor(payloads) + [] == FramesFor(payloads);
  }

  lemma {:induction false} OneBurst(burst: seq<Byte>, parts: seq<seq<Byte>>)
    ensures Bursts(burst, Chunks(parts)) == [burst + Joined(parts)]
    decreases |parts|
  {
    if parts == [] {
      assert burst + [] == burst;
    } else {
      OneBurst(burst + parts[0], parts[1..]);
      Associates(burst, parts[0], Joined(parts[1..]));
      assert Chunks(parts)[1..] == Chunks(parts[1..]);
    }
  }

  /** One frame, however it is cut. */
  lemma {:induction false} PiecesServed(parts: seq<seq<Byte>>, data: seq<Byte>)
    requires |data| >= 2 && Joined(parts) == EncodedFrame(data)
    ensures Expected([], Chunks(parts)) == [Frame(data[0], data[1..])]
  {
    hide EncodedFrame, Expected, Bursts;
    OneBurst([], parts);
    assert [] + Joined(parts) == Joined(parts);
    assert [data][1..] == [] && EncodedFrame(data) + [] == EncodedFrame(data);
    StreamServed([data], Chunks(parts));
    assert FramesFor([data]) == [Frame(data[0], data[1..])] + [];
  }

  /** What a byte becomes when one of its two hex digits is replaced. */
  function WithNibble(b: Byte, high: bool, n: nat): (v: Byte)
    requires n < 16
    ensures v == b <==> n == if high then b / 16 else b % 16
  {
    if high then n * 16 + b % 16 else b / 16 * 16 + n
  }

  lemma {:induction false} HexReplaced(data: seq<Byte>, j: nat, c: Byte)
    requires j < 2 * |data|
    ensures HexDecoded(HexOf(data)[j := c])
         == if Nibble(c).None? then None
            else Some(data[j / 2 := WithNibble(data[j / 2], j % 2 == 0, Nibble(c).value)])
  {
    hide Nibble, HexDigit;
    var hex := HexOf(data);
    var changed, tail := hex[j := c], data[1..];
    assert hex[2..] == HexOf(tail);
    NibbleDigit(data[0] / 16);
    NibbleDigit(data[0] % 16);
    if j < 2 {
      HexRoundTrip(tail);
      assert changed[2..] == hex[2..];
      assert j / 2 == 0;
      if Nibble(c).Some? {
        var v := WithNibble(data[0], j % 2 == 0, Nibble(c).value);
        assert HexDecodeByte(changed[0], changed[1]) == Some(v);
        assert [v] + tail == data[0 := v];
      }
    } else {
      hide WithNibble;
      assert changed[2..] == HexOf(tail)[j - 2 := c];
      HexReplaced(tail, j - 2, c);
      assert (j - 2) / 2 == j / 2 - 1 && (j - 2) % 2 == j % 2;
      assert tail[j / 2 - 1] == data[j / 2];
      assert HexDecodeByte(changed[0], changed[1]) == Some(data[0]);
      if Nibble(c).Some? {
        Prepended(data, j / 2, WithNibble(data[j / 2], j % 2 == 0, Nibble(c).value));
      }
    }
  }

  lemma {:induction false} Prepended(data: seq<Byte>, k: nat, v: Byte)
    requires 1 <= k < |data|
    ensures [data[0]] + data[1..][k - 1 := v] == data[k := v]
  {
  }

  lemma {:induction false} TotalReplaced(data: seq<Byte>, k: nat, v: Byte)
    requires k < |data|
    ensures Total(data[k := v]) + data[k] == Total(data) + v
  {
    if k == 0 {
      assert data[0 := v][1..] == data[1..];
    } else {
      assert data[k := v][1..] == data[1..][k - 1 := v];
      TotalReplaced(data[1..], k - 1, v);
    }
  }

  /** The checksum catches every change of a single byte. */
  lemma {:induction false} ByteChangeDetected(data: seq<Byte>, k: nat, v: Byte)
    requires k <= |data| && v != (data + [Lrc(data)])[k]
    ensures CheckedFrame((data + [Lrc(data)])[k := v]).None?
  {
    hide Lrc, Total;
    var all := data + [Lrc(data)];
    var changed := all[k := v];
    var body, last := changed[..|data|], changed[|data|];
    assert changed == body + [last];
    ChecksumIsZeroSum(data, Lrc(data));
    ChecksumIsZeroSum(body, last);
    TotalReplaced(all, k, v);
    NotCongruent(Total(all), Total(changed), all[k], v);
  }

  lemma {:induction false} NotCongruent(a: nat, b: nat, x: Byte, y: Byte)
    requires b + x == a + y && x != y && a % 0x100 == 0
    ensures b % 0x100 != 0
  {
  }

  /** Whether the frame character `was` at position `i` reads the same when it is replaced by `c`. */
  predicate ReadsTheSame(i: nat, was: Byte, c: Byte) {
    if i == 0 then c == was else Nibble(c) == Nibble(was)
  }

  // The line of a frame with one character before the terminator replaced.
  lemma {:induction false} ReplacedLine(data: seq<Byte>, i: nat, c: Byte)
    requires |data| >= 2 && i < |EncodedFrame(data)| - 2
    ensures DecodedLine(EncodedFrame(data)[i := c][..|EncodedFrame(data)| - 2])
         == if ReadsTheSame(i, EncodedFrame(data)[i], c) then Some(Frame(data[0], data[1..])) else None
  {
    hide Lrc, HexOf, HexDecoded, Nibble, WithNibble;
    var f, all := EncodedFrame(data), data + [Lrc(data)];
    var line := f[i := c][..|f| - 2];
    FrameShape(data);
    assert all[..|all| - 1] == data;
    if i == 0 {
      assert line[1..] == f[1..|f| - 2];
      HexRoundTrip(all);
    } else {
      var j := i - 1;
      assert line[1..] == HexOf(all)[j := c] && HexOf(all)[j] == f[i];
      HexReplaced(all, j, c);
      DigitOf(all, j);
      if Nibble(c).Some? {
        var v := WithNibble(all[j / 2], j % 2 == 0, Nibble(c).value);
        if v == all[j / 2] {
          assert all[j / 2 := v] == all;
        } else {
          ByteChangeDetected(data, j / 2, v);
        }
      }
    }
  }

  lemma {:induction false} DigitOf(data: seq<Byte>, j: nat)
    requires j < 2 * |data|
    ensures Nibble(HexOf(data)[j]) == Some(if j % 2 == 0 then data[j / 2] / 16 else data[j / 2] % 16)
  {
    if j < 2 {
      NibbleDigit(data[0] / 16);
      NibbleDigit(data[0] % 16);
    } else {
      DigitOf(data[1..], j - 2);
      assert data[1..][(j - 2) / 2] == data[j / 2];
    }
  }

  /**
   Integrity, exactly: with any one character before the terminator replaced by any byte, a frame is read as it was
   when the character stands for the same thing (a digit in the other case), and otherwise it is dropped as a whole
   and the parser goes on with what follows it.
   */
  lemma {:induction false} ReplacedCharacter(data: seq<Byte>, i: nat, c: Byte, more: seq<Byte>)
    requires |data| >= 2 && i < |EncodedFrame(data)| - 2
    ensures var f := EncodedFrame(data);
            FirstFrame(f[i := c] + more) == if ReadsTheSame(i, f[i], c) then FirstFrame(f + more)
                                            else Later(FirstFrame(more), |f|)
  {
    hide Lrc, HexOf, FirstCrlf, DecodedLine, EncodedFrame;
    var f := EncodedFrame(data);
    var s := f[i := c] + more;
    FrameShape(data);
    forall k: nat | k < |f| - 2
      ensures !CrlfAt(s, k)
    {
      assert s[k] == f[i := c][k] && s[k + 1] == f[i := c][k + 1];
    }
    assert CrlfAt(s, |f| - 2);
    FirstCrlfIs(s, |f| - 2);
    assert s[..|f| - 2] == f[i := c][..|f| - 2] && s[|f| - 2 + 2..] == more;
    ReplacedLine(data, i, c);
    FrameRoundTrip(data, more);
  }

  lemma {:induction false} BadDigit(hex: seq<Byte>, j: nat)
    requires |hex| % 2 == 0 && j < |hex| && Nibble(hex[j]).None?
    ensures HexDecoded(hex).None?
  {
    if j >= 2 {
      BadDigit(hex[2..], j - 2);
    }
  }

  lemma {:induction false} BadLine(content: seq<Byte>, j: nat)
    requires 1 <= j < |content| && (content[j] == CR || content[j] == LF)
    ensures DecodedLine(content) == None
  {
    if |content[1..]| % 2 == 0 {
      BadDigit(content[1..], j - 1);
    }
  }

  lemma {:induction false} CrlfBehind(s: seq<Byte>, n: nat)
    requires n <= |s| && forall i: nat :: i < n ==> !CrlfAt(s, i)
    ensures FirstCrlf(s) == if FirstCrlf(s[n..]).None? then None else Some(FirstCrlf(s[n..]).value + n)
  {
    if n > 0 {
      assert !CrlfAt(s, 0);
      forall i: nat | i < n - 1
        ensures !CrlfAt(s[1..], i)
      {
        assert !CrlfAt(s, i + 1);
      }
      CrlfBehind(s[1..], n - 1);
      assert s[1..][n - 1..] == s[n..];
    } else {
      assert s[0..] == s;
    }
  }

  /**
   How much of what follows a frame with a damaged terminator is read as one line with it: up to the next CRLF, or just
   the LF that completes a CR put in place of the terminator's LF.
   */
  function LostWith(endsInCr: bool, more: seq<Byte>): (n: Option<nat>)
    ensures n.Some? ==> n.value <= |more|
  {
    if endsInCr && more != [] && more[0] == LF then Some(1)
    else if FirstCrlf(more).None? then None
    else Some(FirstCrlf(more).value + 2)
  }

  /**
   With either character of the terminator replaced by another, the frame is not read: it makes one line with what
   follows it, that line is dropped as a whole, and the parser goes on behind it.
   */
  lemma {:induction false} ReplacedTerminator(data: seq<Byte>, i: nat, c: Byte, more: seq<Byte>)
    requires |data| >= 2 && |EncodedFrame(data)| - 2 <= i < |EncodedFrame(data)| && c != EncodedFrame(data)[i]
    ensures var f := EncodedFrame(data);
            var lost := LostWith(i == |f| - 1 && c == CR, more);
            && (lost.None? ==> FirstFrame(f[i := c] + more) == Nothing)
            && (lost.Some? ==> FirstFrame(f[i := c] + more) == Later(FirstFrame(more[lost.value..]), |f| + lost.value))
  {
    hide Lrc, HexOf, FirstCrlf, DecodedLine, EncodedFrame, FirstFrame;
    var f := EncodedFrame(data);
    var damaged := f[i := c];
    var s := damaged + more;
    FrameShape(data);
    FirstFrameLine(s);
    var bad := if i == |f| - 1 then |f| - 2 else |f| - 1;
    assert damaged[bad] == f[bad] && s[bad] == f[bad];
    assert forall k :: 0 <= k < |f| ==> s[k] == damaged[k];
    if i == |f| - 1 && c == CR && more != [] && more[0] == LF {
      assert CrlfAt(s, |f| - 1);
      FirstCrlfIs(s, |f| - 1);
      BadLine(s[..|f| - 1], bad);
      assert s[|f| + 1..] == more[1..];
    } else {
      assert !CrlfAt(s, |f| - 1);
      CrlfBehind(s, |f|);
      assert s[|f|..] == more;
      if FirstCrlf(more).Some? {
        var p := |f| + FirstCrlf(more).value;
        BadLine(s[..p], bad);
        assert s[p + 2..] == more[FirstCrlf(more).value + 2..];
      }
    }
  }

  // ── The client side ──────────────────────────────────────────────────────

  /** What the client makes of the bytes received so far for a request to `slave`; None is to wait for more. */
  function ParsedResponse(buf: seq<Byte>, slave: Byte): Option<Outcome> {
    match FirstFrame(buf)
    case Nothing => None
    case Found(frame, _) =>
      if frame.slave != slave then Some(Err(Protocol))
      else match Responses.DecodedPdu(frame.pdu)
           case Ok(rsp) => Some(Ok(rsp))
           case Err(_) => Some(Err(Protocol))
  }

  /** The client goes on waiting until a reply frame is there to its last byte, and then reads it back. */
  lemma {:induction false} ReceivedReply(rsp: seq<Byte>, slave: Byte)
    requires |rsp| >= 2
    ensures forall k :: 0 <= k < |EncodedFrame(rsp)| ==> ParsedResponse(EncodedFrame(rsp)[..k], slave) == None
    ensures ParsedResponse(EncodedFrame(rsp), slave)
         == if rsp[0] != slave then Some(Err(Protocol))
            else match Responses.DecodedPdu(rsp[1..]) case Ok(r) => Some(Ok(r)) case Err(_) => Some(Err(Protocol))
  {
    hide EncodedFrame, FirstCrlf, DecodedLine, Responses.DecodedPdu;
    var f := EncodedFrame(rsp);
    FrameRoundTrip(rsp, []);
    assert f + [] == f;
    FrameShape(rsp);
    forall k | 0 <= k < |f|
      ensures ParsedResponse(f[..k], slave) == None
    {
      var s := f[..k];
      forall i: nat
        ensures !CrlfAt(s, i)
      {
      }
      NoCrlf(s);
    }
  }
}
