/** MBAP framing: the encoder, the guessing parser and the connection loop of `src/transport/tcp.rs`. */
module Tcp {
  import opened Wire
  import opened Pdu
  import opened Errors
  import opened SendRecv
  import Store = SlaveStore
  import Requests = RequestCodec
  import Responses = ResponseCodec

  const MBAP_HEADER_SIZE := 7
  const MBAP_PREFIX_SIZE := 6
  const MAX_TCP_ADU_SIZE := 260
  const MAX_TCP_BUF_BYTES := 1040

  datatype LengthMode = Standard | PduOnly

  /** The parts of the configuration that shape a frame; the transaction identifier is a parameter of its own. */
  datatype Config = Config(unitIdInBody: bool, lengthMode: LengthMode)

  // ── The encoder ──────────────────────────────────────────────────────────

  /** The length field: sixteen-bit arithmetic that wraps. */
  function LengthField(pduLength: nat, cfg: Config): U16 {
    var extra := if cfg.unitIdInBody then 1 else 0;
    (pduLength + (if cfg.lengthMode.Standard? then 1 else 0) + extra) % 0x1_0000
  }

  function Body(uid: Byte, pdu: seq<Byte>, cfg: Config): seq<Byte> {
    (if cfg.unitIdInBody then [uid] else []) + pdu
  }

  function Framed(tid: U16, length: U16, uid: Byte, body: seq<Byte>): (frame: seq<Byte>)
    ensures |frame| == MBAP_HEADER_SIZE + |body|
  {
    BeBytes(tid) + BeBytes(0) + BeBytes(length) + [uid] + body
  }

  function EncodedFrame(data: seq<Byte>, cfg: Config, tid: U16): seq<Byte> {
    var uid, pdu := if data == [] then 1 else data[0], if data == [] then [] else data[1..];
    Framed(tid, LengthField(|pdu|, cfg), uid, Body(uid, pdu, cfg))
  }

  method EncodeTcpFrame(data: seq<Byte>, buf: BytesMut, cfg: Config, tid: U16)
    modifies buf
    ensures buf.data == old(buf.data) + EncodedFrame(data, cfg, tid)
  {
    hide BeBytes;
    var uid: Byte, pdu: seq<Byte> := 1, [];
    if data != [] {
      uid, pdu := data[0], data[1..];
    }
    var extra := if cfg.unitIdInBody then 1 else 0;
    var len := if cfg.lengthMode.Standard? then (|pdu| + 1 + extra) % 0x1_0000 else (|pdu| + extra) % 0x1_0000;
    buf.PutU16(tid);
    buf.PutU16(0);
    buf.PutU16(len);
    buf.PutU8(uid);
    if cfg.unitIdInBody {
      buf.PutU8(uid);
    }
    buf.PutSlice(pdu);
    Appended(old(buf.data), BeBytes(tid), BeBytes(0), BeBytes(len), [uid], if cfg.unitIdInBody then [uid] else [], pdu);
  }

  lemma {:induction false} Appended(
      before: seq<Byte>, a: seq<Byte>, b: seq<Byte>, c: seq<Byte>, d: seq<Byte>, e: seq<Byte>, f: seq<Byte>)
    ensures before + a + b + c + d + e + f == before + (a + b + c + d + (e + f))
    ensures e == [] ==> before + a + b + c + d + f == before + (a + b + c + d + (e + f))
  {
  }

  // ── The parser ───────────────────────────────────────────────────────────

  datatype Frame = Frame(tid: U16, slave: Byte, pdu: seq<Byte>)

  datatype Parse = Nothing | Found(frame: Frame, consumed: nat)

  /** The two body layouts, tried in turn. */
  function Extracted(tid: U16, uid: Byte, body: seq<Byte>, consumed: nat): Parse
    requires body != []
  {
    if |body| >= 2 && body[0] == uid && IsKnownFunctionCode(body[1]) && Requests.DecodedPdu(body[1..]).Ok? then
      Found(Frame(tid, body[0], body[1..]), consumed)
    else if IsKnownFunctionCode(body[0]) then
      if body[0] == uid && Requests.DecodedPdu(body).Err? then Nothing
      else Found(Frame(tid, uid, body), consumed)
    else Nothing
  }

  function TidOf(buf: seq<Byte>): U16
    requires |buf| >= MBAP_HEADER_SIZE
  {
    BeU16(buf[0], buf[1])
  }

  function ProtocolOf(buf: seq<Byte>): U16
    requires |buf| >= MBAP_HEADER_SIZE
  {
    BeU16(buf[2], buf[3])
  }

  function LengthOf(buf: seq<Byte>): U16
    requires |buf| >= MBAP_HEADER_SIZE
  {
    BeU16(buf[4], buf[5])
  }

  /** The two readings of the length field, tried in turn: without the unit identifier first, then with it. */
  function Parsed(buf: seq<Byte>): (p: Parse)
    ensures p.Found? ==> MBAP_HEADER_SIZE < p.consumed <= |buf|
  {
    if |buf| < MBAP_HEADER_SIZE then Nothing
    else
      var length := LengthOf(buf);
      if ProtocolOf(buf) != 0 || length > MAX_TCP_ADU_SIZE then Nothing
      else if length > 0 && |buf| >= MBAP_HEADER_SIZE + length then
        Extracted(TidOf(buf), buf[6], buf[MBAP_HEADER_SIZE..MBAP_HEADER_SIZE + length], MBAP_HEADER_SIZE + length)
      else if length > 1 && |buf| >= MBAP_PREFIX_SIZE + length then
        Extracted(TidOf(buf), buf[6], buf[MBAP_HEADER_SIZE..MBAP_PREFIX_SIZE + length], MBAP_PREFIX_SIZE + length)
      else Nothing
  }

  predicate HeaderCorrupt(buf: seq<Byte>) {
    |buf| >= MBAP_HEADER_SIZE && (ProtocolOf(buf) != 0 || !(1 <= LengthOf(buf) <= MAX_TCP_ADU_SIZE))
  }

  // ── A frame on its own ───────────────────────────────────────────────────

  lemma {:induction false} HeaderFields(tid: U16, length: U16, uid: Byte, body: seq<Byte>, more: seq<Byte>)
    ensures var buf := Framed(tid, length, uid, body) + more;
            && TidOf(buf) == tid && ProtocolOf(buf) == 0 && LengthOf(buf) == length && buf[6] == uid
            && buf[MBAP_HEADER_SIZE..] == body + more
  {
    hide BeBytes, BeU16;
    PairOfWord(tid);
    PairOfWord(0);
    PairOfWord(length);
    HeaderBytes(BeBytes(tid), BeBytes(0), BeBytes(length), uid, body, more);
  }

  lemma {:induction false} PairOfWord(v: U16)
    ensures |BeBytes(v)| == 2 && BeU16(BeBytes(v)[0], BeBytes(v)[1]) == v
  {
  }

  lemma {:induction false} HeaderBytes(
      a: seq<Byte>, b: seq<Byte>, c: seq<Byte>, uid: Byte, body: seq<Byte>, more: seq<Byte>)
    requires |a| == |b| == |c| == 2
    ensures var buf := a + b + c + [uid] + body + more;
            && buf[0] == a[0] && buf[1] == a[1] && buf[2] == b[0] && buf[3] == b[1] && buf[4] == c[0] && buf[5] == c[1]
            && buf[6] == uid && buf[7..] == body + more
  {
  }

  /** A message on its way: transaction, unit, and a PDU that is a request. */
  predicate IsMessage(m: Frame) {
    |m.pdu| <= MAX_PDU_SIZE && Requests.DecodedPdu(m.pdu).Ok?
  }

  function FrameOf(m: Frame, cfg: Config): (bytes: seq<Byte>)
    ensures |bytes| == MBAP_HEADER_SIZE + (if cfg.unitIdInBody then 1 else 0) + |m.pdu|
  {
    EncodedFrame([m.slave] + m.pdu, cfg, m.tid)
  }

  lemma {:induction false} FrameIs(m: Frame, cfg: Config)
    ensures FrameOf(m, cfg) == Framed(m.tid, LengthField(|m.pdu|, cfg), m.slave, Body(m.slave, m.pdu, cfg))
  {
    assert ([m.slave] + m.pdu)[1..] == m.pdu;
  }

  /** A frame of a PDU of any size the protocol allows. */
  predicate Sized(m: Frame) {
    1 <= |m.pdu| <= MAX_PDU_SIZE
  }

  function BodyOf(m: Frame, cfg: Config): (body: seq<Byte>)
    ensures |body| == |FrameOf(m, cfg)| - MBAP_HEADER_SIZE
  {
    Body(m.slave, m.pdu, cfg)
  }

  /** The two readings of the length: which body the parser looks at, for a frame with anything behind it. */
  lemma {:induction false} FrameParsed(m: Frame, cfg: Config, more: seq<Byte>)
    requires Sized(m)
    ensures Parsed(FrameOf(m, cfg) + more)
         == if cfg.lengthMode.Standard? && more != []
            then Extracted(m.tid, m.slave, BodyOf(m, cfg) + [more[0]], |FrameOf(m, cfg)| + 1)
            else Extracted(m.tid, m.slave, BodyOf(m, cfg), |FrameOf(m, cfg)|)
  {
    hide BeU16, BeBytes, Extracted, TidOf, ProtocolOf, LengthOf, FrameOf, Framed;
    var frame, body := FrameOf(m, cfg), BodyOf(m, cfg);
    FrameIs(m, cfg);
    HeaderFields(m.tid, LengthField(|m.pdu|, cfg), m.slave, body, more);
    SliceBody(frame + more, body, more);
  }

  lemma {:induction false} SliceBody(buf: seq<Byte>, body: seq<Byte>, more: seq<Byte>)
    requires |buf| >= MBAP_HEADER_SIZE && buf[MBAP_HEADER_SIZE..] == body + more
    ensures buf[MBAP_HEADER_SIZE..MBAP_HEADER_SIZE + |body|] == body
    ensures more != [] ==> buf[MBAP_HEADER_SIZE..MBAP_HEADER_SIZE + |body| + 1] == body + [more[0]]
  {
    assert buf[MBAP_HEADER_SIZE..MBAP_HEADER_SIZE + |body|] == buf[MBAP_HEADER_SIZE..][..|body|];
    if more != [] {
      assert buf[MBAP_HEADER_SIZE..MBAP_HEADER_SIZE + |body| + 1] == buf[MBAP_HEADER_SIZE..][..|body| + 1];
    }
  }

  lemma {:induction false} LoneParsed(m: Frame, cfg: Config)
    requires Sized(m)
    ensures Parsed(FrameOf(m, cfg)) == Extracted(m.tid, m.slave, BodyOf(m, cfg), |FrameOf(m, cfg)|)
  {
    hide Parsed, Extracted;
    FrameParsed(m, cfg, []);
    assert FrameOf(m, cfg) + [] == FrameOf(m, cfg);
  }

  /** When the two layouts cannot be told apart: the unit identifier doubles as the function code of another request. */
  predicate Ambiguous(m: Frame, cfg: Config) {
    && !cfg.unitIdInBody && |m.pdu| >= 2 && m.slave == m.pdu[0]
    && IsKnownFunctionCode(m.pdu[1]) && Requests.DecodedPdu(m.pdu[1..]).Ok?
  }

  /** What the parser takes a message for. */
  function ReadAs(m: Frame, cfg: Config): Frame {
    if Ambiguous(m, cfg) then Frame(m.tid, m.slave, m.pdu[1..]) else m
  }

  lemma {:induction false} ExtractedBody(m: Frame, cfg: Config, consumed: nat)
    requires IsMessage(m)
    ensures Sized(m)
    ensures Extracted(m.tid, m.slave, BodyOf(m, cfg), consumed) == Found(ReadAs(m, cfg), consumed)
  {
    var body := BodyOf(m, cfg);
    KnownWhenDecoded(m.pdu);
    hide Requests.Decoded, IsKnownFunctionCode;
    if cfg.unitIdInBody {
      assert body[1..] == m.pdu;
    } else {
      assert body == m.pdu;
    }
  }

  lemma {:induction false} KnownWhenDecoded(pdu: seq<Byte>)
    requires Requests.DecodedPdu(pdu).Ok?
    ensures pdu != [] && IsKnownFunctionCode(pdu[0])
  {
    hide BeU16, Requests.ReadRange, Requests.DecodedCoils, Requests.DecodedRegisters, Requests.DecodedReadWrite;
  }

  /**
   Round trip of a lone frame, exactly: for every configuration it parses to its transaction, unit and PDU and takes
   the whole frame, unless it is ambiguous, when the PDU loses its first byte.
   */
  lemma {:induction false} LoneFrame(m: Frame, cfg: Config)
    requires IsMessage(m)
    ensures Parsed(FrameOf(m, cfg)) == Found(ReadAs(m, cfg), |FrameOf(m, cfg)|)
    ensures ReadAs(m, cfg) == m <==> !Ambiguous(m, cfg)
  {
    hide Requests.Decoded, Extracted, Parsed, BodyOf, FrameOf;
    ExtractedBody(m, cfg, |FrameOf(m, cfg)|);
    LoneParsed(m, cfg);
  }

  /** A message that can be served as something else: ambiguous, or refused while unit and PDU together are a request. */
  predicate Misread(m: Frame, cfg: Config) {
    || Ambiguous(m, cfg)
    || (cfg.unitIdInBody && Requests.DecodedPdu(m.pdu).Err?
        && IsKnownFunctionCode(m.slave) && Requests.DecodedPdu([m.slave] + m.pdu).Ok?)
  }

  /** The request a misread message is served as. */
  function Mistaken(m: Frame, cfg: Config): seq<Byte>
    requires Misread(m, cfg)
  {
    if Ambiguous(m, cfg) then m.pdu[1..] else [m.slave] + m.pdu
  }

  lemma {:induction false} MisreadFrame(m: Frame, cfg: Config)
    requires Sized(m) && Misread(m, cfg)
    ensures Requests.DecodedPdu(Mistaken(m, cfg)).Ok?
    ensures Parsed(FrameOf(m, cfg)) == Found(Frame(m.tid, m.slave, Mistaken(m, cfg)), |FrameOf(m, cfg)|)
  {
    hide Requests.Decoded, IsKnownFunctionCode, Parsed, FrameOf;
    LoneParsed(m, cfg);
    if cfg.unitIdInBody {
      assert BodyOf(m, cfg) == [m.slave] + m.pdu && BodyOf(m, cfg)[1..] == m.pdu;
    } else {
      assert BodyOf(m, cfg) == m.pdu;
    }
  }

  /** Whether a PDU that is no request is handed on, to be refused by the decoder, rather than dropped by the parser. */
  predicate HandedOn(m: Frame, cfg: Config)
    requires Sized(m)
  {
    !cfg.unitIdInBody && IsKnownFunctionCode(m.pdu[0]) && m.pdu[0] != m.slave
  }

  /** A PDU that is no request, and is not misread, is handed on as it is or dropped, as that guard says. */
  lemma {:induction false} RefusedFrame(m: Frame, cfg: Config)
    requires Sized(m) && Requests.DecodedPdu(m.pdu).Err? && !Misread(m, cfg)
    ensures Parsed(FrameOf(m, cfg)) == if HandedOn(m, cfg) then Found(m, |FrameOf(m, cfg)|) else Nothing
  {
    hide Requests.Decoded, IsKnownFunctionCode, Parsed, FrameOf;
    LoneParsed(m, cfg);
    if cfg.unitIdInBody {
      assert BodyOf(m, cfg) == [m.slave] + m.pdu && BodyOf(m, cfg)[1..] == m.pdu;
    } else {
      assert BodyOf(m, cfg) == m.pdu;
    }
  }

  /** A request of five bytes is never ambiguous: that covers function codes 1 to 6 and 8. */
  lemma {:induction false} ShortRequestsUnambiguous(req: Request, tid: U16, slave: Byte, cfg: Config)
    requires Requests.EncodedInto(req).ok && Requests.InRange(req) && RequestFunction(req) in {1, 2, 3, 4, 5, 6, 8}
    ensures IsMessage(Frame(tid, slave, Requests.EncodedInto(req).appended))
    ensures !Ambiguous(Frame(tid, slave, Requests.EncodedInto(req).appended), cfg)
  {
    hide Requests.Decoded, Requests.Encoded, BeU16;
    var pdu := Requests.EncodedInto(req).appended;
    Requests.EncoderLimits(req);
    Requests.RequestRoundTrip(req, []);
    assert pdu + [] == pdu;
    NeedsFive(pdu[1..]);
  }

  lemma {:induction false} NeedsFive(pdu: seq<Byte>)
    requires |pdu| < 5
    ensures Requests.DecodedPdu(pdu).Err?
  {
  }

  /** Out of range they can be: a read of 3000 coils by a gateway client from unit 3 is taken for a read of registers. */
  lemma {:induction false} OutOfRangeMisread(tid: U16, mode: LengthMode)
    ensures var m, cfg := Frame(tid, 3, [1, 0, 0, 0x0B, 0xB8]), Config(true, mode);
            && m.pdu == Requests.EncodedInto(Request.ReadCoils(0, 3000)).appended
            && Misread(m, cfg) && Requests.DecodedPdu(Mistaken(m, cfg)) == Ok(Request.ReadHoldingRegisters(256, 11))
  {
    assert [3] + [1, 0, 0, 0x0B, 0xB8] == [3, 1, 0, 0, 0x0B, 0xB8];
  }

  /** The second sixteen-bit field of the requests longer than five bytes. */
  function SecondField(req: Request): U16
    requires RequestFunction(req) in {15, 16, 22, 23} && Requests.InRange(req)
  {
    match req
    case WriteMultipleCoils(_, coils) => |coils|
    case WriteMultipleRegisters(_, words) => |words|
    case MaskWriteRegister(_, andMask, _) => andMask
    case ReadWriteMultipleRegisters(_, qty, _, _) => qty
  }

  lemma {:induction false} FirstFields(req: Request)
    requires Requests.EncodedInto(req).ok && RequestFunction(req) in {15, 16, 22, 23} && Requests.InRange(req)
    ensures var pdu := Requests.EncodedInto(req).appended;
            && |pdu| >= 6 && pdu[0] == RequestFunction(req)
            && pdu[1] == req.addr / 256 && pdu[2] == req.addr % 256
            && pdu[3] == SecondField(req) / 256 && pdu[4] == SecondField(req) % 256
  {
    hide Requests.Payload, Requests.Encoded;
    PairOfWord(req.addr);
    PairOfWord(SecondField(req));
    Requests.EncoderLimits(req);
    PrefixFields(req);
    hide Requests.Prefix;
    StartsWithHead(req);
    LeadingFields(Requests.EncodedInto(req).appended, RequestFunction(req), BeBytes(req.addr), BeBytes(SecondField(req)));
  }

  lemma {:induction false} PrefixFields(req: Request)
    requires RequestFunction(req) in {15, 16, 22, 23} && Requests.InRange(req)
    ensures |Requests.Prefix(req)| >= 4
    ensures Requests.Prefix(req)[..4] == BeBytes(req.addr) + BeBytes(SecondField(req))
  {
    hide BeBytes;
    PairOfWord(req.addr);
    PairOfWord(SecondField(req));
    match req {
      case WriteMultipleCoils(_, _) => assert |BeBytes(req.addr) + BeBytes(SecondField(req))| == 4;
      case WriteMultipleRegisters(_, _) => assert |BeBytes(req.addr) + BeBytes(SecondField(req))| == 4;
      case MaskWriteRegister(_, _, orMask) =>
        FirstFour(BeBytes(req.addr), BeBytes(SecondField(req)), BeBytes(orMask), []);
      case ReadWriteMultipleRegisters(_, _, writeAddr, words) =>
        FirstFour(BeBytes(req.addr), BeBytes(SecondField(req)), BeBytes(writeAddr), BeBytes(|words| % 0x1_0000));
    }
  }

  lemma {:induction false} FirstFour(a: seq<Byte>, b: seq<Byte>, c: seq<Byte>, d: seq<Byte>)
    requires |a| == |b| == 2
    ensures (a + b + c)[..4] == a + b && (a + b + c + d)[..4] == a + b
  {
  }

  lemma {:induction false} StartsWithHead(req: Request)
    requires Requests.EncodedInto(req).ok && RequestFunction(req) in {15, 16, 22, 23} && |Requests.Prefix(req)| >= 4
    ensures var pdu := Requests.EncodedInto(req).appended;
            |pdu| >= 5 && pdu[..5] == [RequestFunction(req)] + Requests.Prefix(req)[..4]
  {
    hide Requests.Payload, Requests.Prefix;
    var pdu, head := Requests.EncodedInto(req).appended, Requests.Head(req);
    assert head[..5] == [RequestFunction(req)] + Requests.Prefix(req)[..4];
    assert pdu[..|head|] == head;
    assert pdu[..5] == head[..5];
  }

  lemma {:induction false} LeadingFields(pdu: seq<Byte>, fc: Byte, a: seq<Byte>, b: seq<Byte>)
    requires |pdu| >= 5 && |a| == |b| == 2 && pdu[..5] == [fc] + (a + b)
    ensures pdu[0] == fc && pdu[1] == a[0] && pdu[2] == a[1] && pdu[3] == b[0] && pdu[4] == b[1]
  {
    assert forall i :: 0 <= i < 5 ==> pdu[i] == pdu[..5][i];
  }

  /**
   The other four function codes do have ambiguous requests: sent to the unit numbered like the function code, at
   addresses 256 to 495, and with a small second field, each also reads as "read coils".
   */
  lemma {:induction false} AmbiguousRequests(req: Request, tid: U16, mode: LengthMode)
    requires Requests.EncodedInto(req).ok && RequestFunction(req) in {15, 16, 22, 23} && Requests.InRange(req)
    requires 256 <= req.addr < 496 && 1 <= SecondField(req) <= 6
    ensures var m := Frame(tid, RequestFunction(req), Requests.EncodedInto(req).appended);
            && IsMessage(m) && Ambiguous(m, Config(false, mode))
            && Requests.DecodedPdu(m.pdu[1..]).value.ReadCoils?
  {
    hide Requests.EncodedInto, Requests.InRange, Requests.Decoded, SecondField;
    var pdu := Requests.EncodedInto(req).appended;
    Requests.EncoderLimits(req);
    Requests.RequestRoundTrip(req, []);
    assert pdu + [] == pdu;
    FirstFields(req);
    assert pdu[1] == 1;
    ReadsAsCoils(pdu[1..]);
  }

  lemma {:induction false} ReadsAsCoils(pdu: seq<Byte>)
    requires |pdu| >= 5 && pdu[0] == 1 && pdu[1] < 240 && 1 <= pdu[3] <= 6
    ensures Requests.DecodedPdu(pdu).Ok? && Requests.DecodedPdu(pdu).value.ReadCoils?
  {
  }

  // ── The connection loop ──────────────────────────────────────────────────

  function Prepended(frame: Frame, rest: (seq<Frame>, seq<Byte>)): (seq<Frame>, seq<Byte>) {
    ([frame] + rest.0, rest.1)
  }

  /** The frames at the front of the buffer, and what is left of it. */
  function Drained(buf: seq<Byte>): (seq<Frame>, seq<Byte>)
    decreases |buf|
  {
    var p := Parsed(buf);
    if p.Nothing? then ([], buf) else Prepended(p.frame, Drained(buf[p.consumed..]))
  }

  /** The buffer after a read: dropped when its header is corrupt or it has grown too large. */
  function Kept(buf: seq<Byte>): seq<Byte> {
    if HeaderCorrupt(buf) || |buf| > MAX_TCP_BUF_BYTES then [] else buf
  }

  function Expected(buf: seq<Byte>, chunks: seq<seq<Byte>>): seq<Frame>
    decreases |chunks|
  {
    if chunks == [] then []
    else
      var (frames, rest) := Drained(buf + chunks[0]);
      frames + Expected(Kept(rest), chunks[1..])
  }

  /** What the buffer holds after the reads. */
  function Left(buf: seq<Byte>, chunks: seq<seq<Byte>>): seq<Byte>
    decreases |chunks|
  {
    if chunks == [] then buf else Left(Kept(Drained(buf + chunks[0]).1), chunks[1..])
  }

  /** How many bytes are dropped on the way. */
  function Dropped(buf: seq<Byte>, chunks: seq<seq<Byte>>): nat
    decreases |chunks|
  {
    if chunks == [] then 0
    else
      var rest := Drained(buf + chunks[0]).1;
      |rest| - |Kept(rest)| + Dropped(Kept(rest), chunks[1..])
  }

  /** What a connection does with one frame: the new store, and the reply written, under the frame's transaction. */
  function Answer(st: Store.State, frame: Frame, cfg: Config): (Store.State, seq<Byte>) {
    var (next, rsp) := Processed(st, frame.slave, frame.pdu);
    (next, if rsp.Some? then EncodedFrame(rsp.value, cfg, frame.tid) else [])
  }

  function Answering(cfg: Config): (Store.State, Frame) -> (Store.State, seq<Byte>) {
    (st, frame) => Answer(st, frame, cfg)
  }

  // The body of the inner loop: process one frame and write the reply, if there is one.
  method Respond(frame: Frame, store: Store.SlaveStore, rspBuf: BytesMut, frameBuf: BytesMut, cfg: Config)
    returns (bytes: seq<Byte>)
    requires store.Valid() && rspBuf != frameBuf
    modifies rspBuf, frameBuf, store.coils, store.holdingRegisters
    ensures (store.Value(), bytes) == Answer(old(store.Value()), frame, cfg)
  {
    hide Processed, EncodedFrame;
    var rsp := ProcessServerRequest(frame.pdu, frame.slave, store, rspBuf);
    bytes := [];
    if rsp.Some? {
      frameBuf.Clear();
      EncodeTcpFrame(rsp.value, frameBuf, cfg, frame.tid);
      bytes := frameBuf.data;
      assert [] + EncodedFrame(rsp.value, cfg, frame.tid) == EncodedFrame(rsp.value, cfg, frame.tid);
    }
  }

  /** The inner loop: answer every frame at the front of the buffer. */
  method DispatchAll(
      buf: BytesMut, store: Store.SlaveStore, rspBuf: BytesMut, frameBuf: BytesMut, cfg: Config, sent: seq<Byte>,
      ghost start: Store.State, ghost before: seq<Frame>)
    returns (written: seq<Byte>)
    requires store.Valid() && rspBuf != frameBuf && buf != rspBuf && buf != frameBuf
    requires (store.Value(), sent) == Answers(start, before, Answering(cfg))
    modifies buf, rspBuf, frameBuf, store.coils, store.holdingRegisters
    ensures (store.Value(), written) == Answers(start, before + Drained(old(buf.data)).0, Answering(cfg))
    ensures buf.data == Drained(old(buf.data)).1 && Parsed(buf.data).Nothing?
  {
    hide Parsed, Answers, Answer;
    written := sent;
    ghost var dispatched := [];
    assert before + [] == before;
    var p := Parsed(buf.data);
    while p.Found?
      invariant p == Parsed(buf.data)
      invariant Drained(old(buf.data)).0 == dispatched + Drained(buf.data).0
      invariant Drained(old(buf.data)).1 == Drained(buf.data).1
      invariant (store.Value(), written) == Answers(start, before + dispatched, Answering(cfg))
      decreases |buf.data|
    {
      Associates(dispatched, [p.frame], Drained(buf.data[p.consumed..]).0);
      OneMoreAnswer(start, before + dispatched, p.frame, Answering(cfg));
      Associates(before, dispatched, [p.frame]);
      var bytes := Respond(p.frame, store, rspBuf, frameBuf, cfg);
      written := written + bytes;
      dispatched := dispatched + [p.frame];
      buf.Advance(p.consumed);
      p := Parsed(buf.data);
    }
    assert dispatched + [] == dispatched;
  }

  /**
   A connection: the store and the bytes written are those of answering the frames of the read semantics in turn, and
   `left` is what the buffer holds at the end.  Between reads it never holds a parseable frame, a corrupt header or more
   than 1040 bytes.
   */
  method HandleConnection(chunks: seq<seq<Byte>>, store: Store.SlaveStore, cfg: Config)
    returns (written: seq<Byte>, left: seq<Byte>)
    requires store.Valid()
    modifies store.coils, store.holdingRegisters
    ensures (store.Value(), written) == Answers(old(store.Value()), Expected([], chunks), Answering(cfg))
    ensures left == Left([], chunks)
    ensures Parsed(left).Nothing? && !HeaderCorrupt(left) && |left| <= MAX_TCP_BUF_BYTES
  {
    hide Parsed, HeaderCorrupt, Drained, Answers, Expected, Left;
    var buf := new BytesMut();
    var rspBuf := new BytesMut();
    var frameBuf := new BytesMut();
    written := [];
    ghost var start, frames := store.Value(), [];
    EmptyBuffer();
    NoAnswers(start, Answering(cfg));
    for i := 0 to |chunks|
      invariant fresh(buf) && fresh(rspBuf) && fresh(frameBuf)
      invariant Parsed(buf.data).Nothing? && !HeaderCorrupt(buf.data) && |buf.data| <= MAX_TCP_BUF_BYTES
      invariant (store.Value(), written) == Answers(start, frames, Answering(cfg))
      invariant frames + Expected(buf.data, chunks[i..]) == Expected([], chunks)
      invariant Left(buf.data, chunks[i..]) == Left([], chunks)
    {
      ghost var rest := chunks[i + 1..];
      assert chunks[i..] == [chunks[i]] + rest;
      ExpectedRead(buf.data, chunks[i], rest);
      buf.PutSlice(chunks[i]);
      ghost var more := Drained(buf.data).0;
      written := DispatchAll(buf, store, rspBuf, frameBuf, cfg, written, start, frames);
      Associates(frames, more, Expected(Kept(buf.data), rest));
      frames := frames + more;
      if HeaderCorrupt(buf.data) || |buf.data| > MAX_TCP_BUF_BYTES {
        buf.Clear();
      }
    }
    ExpectedEnd(buf.data);
    assert chunks[|chunks|..] == [] && frames + [] == frames;
    left := buf.data;
  }

  lemma {:induction false} ExpectedRead(buf: seq<Byte>, chunk: seq<Byte>, rest: seq<seq<Byte>>)
    ensures Expected(buf, [chunk] + rest) == Drained(buf + chunk).0 + Expected(Kept(Drained(buf + chunk).1), rest)
    ensures Left(buf, [chunk] + rest) == Left(Kept(Drained(buf + chunk).1), rest)
  {
    hide Drained, Kept;
    assert ([chunk] + rest)[1..] == rest;
  }

  lemma {:induction false} DroppedRead(buf: seq<Byte>, chunk: seq<Byte>, rest: seq<seq<Byte>>)
    ensures var left := Drained(buf + chunk).1;
            Dropped(buf, [chunk] + rest) == |left| - |Kept(left)| + Dropped(Kept(left), rest)
  {
    hide Drained, Kept;
    assert ([chunk] + rest)[1..] == rest;
  }

  lemma {:induction false} ExpectedEnd(buf: seq<Byte>)
    ensures Expected(buf, []) == [] && Left(buf, []) == buf && Dropped(buf, []) == 0
  {
  }

  lemma {:induction false} EmptyBuffer()
    ensures Parsed([]).Nothing? && !HeaderCorrupt([])
  {
  }

  // ── A frame with something behind it, and a frame that is not all there ──

  /**
   A standard frame is read to its own end exactly when nothing is behind it: the parser tries the longer reading first
   and takes one byte of whatever follows.
   */
  lemma {:induction false} StandardOverreads(m: Frame, inBody: bool, more: seq<Byte>)
    requires IsMessage(m)
    ensures var cfg := Config(inBody, Standard);
            var p := Parsed(FrameOf(m, cfg) + more);
            && (p.Found? && p.consumed == |FrameOf(m, cfg)| <==> more == [])
            && (more != [] ==>
                  p == Extracted(m.tid, m.slave, BodyOf(m, cfg) + [more[0]], |FrameOf(m, cfg)| + 1))
  {
    hide Requests.Decoded, Extracted, Parsed, BodyOf, FrameOf;
    var cfg := Config(inBody, Standard);
    ExtractedBody(m, cfg, |FrameOf(m, cfg)|);
    FrameParsed(m, cfg, more);
    if more != [] {
      ExtractedConsumes(m.tid, m.slave, BodyOf(m, cfg) + [more[0]], |FrameOf(m, cfg)| + 1, 0);
    }
  }

  /** The number of bytes taken plays no part in what is extracted. */
  lemma {:induction false} ExtractedConsumes(tid: U16, uid: Byte, body: seq<Byte>, n: nat, k: nat)
    requires body != []
    ensures Extracted(tid, uid, body, n).Found? <==> Extracted(tid, uid, body, k).Found?
    ensures Extracted(tid, uid, body, n).Found? ==>
              Extracted(tid, uid, body, n) == Found(Extracted(tid, uid, body, k).frame, n)
  {
    hide Requests.Decoded, IsKnownFunctionCode;
  }

  /** With the length counting the PDU alone, a frame is read whole whatever follows it. */
  lemma {:induction false} PduOnlyFrame(m: Frame, inBody: bool, more: seq<Byte>)
    requires IsMessage(m)
    ensures var cfg := Config(inBody, PduOnly);
            Parsed(FrameOf(m, cfg) + more) == Found(ReadAs(m, cfg), |FrameOf(m, cfg)|)
  {
    hide Requests.Decoded, Extracted, Parsed, BodyOf, FrameOf;
    var cfg := Config(inBody, PduOnly);
    ExtractedBody(m, cfg, |FrameOf(m, cfg)|);
    FrameParsed(m, cfg, more);
  }

  lemma {:induction false} FramedPrefix(tid: U16, length: U16, uid: Byte, body: seq<Byte>, k: nat)
    requires MBAP_HEADER_SIZE <= k <= MBAP_HEADER_SIZE + |body|
    ensures Framed(tid, length, uid, body)[..k] == Framed(tid, length, uid, body[..k - MBAP_HEADER_SIZE])
  {
    hide BeBytes;
    PairOfWord(tid);
    PairOfWord(0);
    PairOfWord(length);
    var header := BeBytes(tid) + BeBytes(0) + BeBytes(length) + [uid];
    assert (header + body)[..k] == header + body[..k - MBAP_HEADER_SIZE];
  }

  /** Whether a frame is taken, cut short, when its last byte is missing. */
  predicate ShortAccepted(m: Frame, cfg: Config) {
    && cfg.lengthMode.PduOnly? && |BodyOf(m, cfg)| > 1
    && Extracted(m.tid, m.slave, BodyOf(m, cfg)[..|BodyOf(m, cfg)| - 1], 0).Found?
  }

  /** What it is then taken for. */
  function Shortened(m: Frame, cfg: Config): Frame
    requires ShortAccepted(m, cfg)
  {
    Extracted(m.tid, m.slave, BodyOf(m, cfg)[..|BodyOf(m, cfg)| - 1], 0).frame
  }

  /** What the parser makes of a proper prefix of a frame: nothing, with that one exception. */
  lemma {:induction false} CutParsed(m: Frame, cfg: Config, k: nat)
    requires Sized(m) && k < |FrameOf(m, cfg)|
    ensures !HeaderCorrupt(FrameOf(m, cfg)[..k])
    ensures Parsed(FrameOf(m, cfg)[..k])
         == if k == |FrameOf(m, cfg)| - 1 && ShortAccepted(m, cfg) then Found(Shortened(m, cfg), k) else Nothing
  {
    hide BeU16, BeBytes, Extracted, TidOf, ProtocolOf, LengthOf, FrameOf, Framed;
    if k >= MBAP_HEADER_SIZE {
      var body, cut := BodyOf(m, cfg), FrameOf(m, cfg)[..k];
      var head := body[..k - MBAP_HEADER_SIZE];
      FrameIs(m, cfg);
      FramedPrefix(m.tid, LengthField(|m.pdu|, cfg), m.slave, body, k);
      HeaderFields(m.tid, LengthField(|m.pdu|, cfg), m.slave, head, []);
      assert cut + [] == cut && head + [] == head;
      if cfg.lengthMode.PduOnly? && k == |FrameOf(m, cfg)| - 1 && |body| > 1 {
        assert head == body[..|body| - 1] && cut[MBAP_HEADER_SIZE..k] == head;
        ExtractedConsumes(m.tid, m.slave, head, k, 0);
      }
    }
  }

  /** So a frame whose length counts the PDU alone is accepted early at one place only, its last byte, and only if so. */
  lemma {:induction false} PduOnlyAcceptedShort(m: Frame, inBody: bool, k: nat)
    requires IsMessage(m) && k < |FrameOf(m, Config(inBody, PduOnly))|
    ensures var cfg := Config(inBody, PduOnly);
            var body, p := BodyOf(m, cfg), Parsed(FrameOf(m, cfg)[..k]);
            && |body| > 1
            && (p.Found? <==> k == |FrameOf(m, cfg)| - 1 && Extracted(m.tid, m.slave, body[..|body| - 1], k).Found?)
            && (p.Found? ==> p == Extracted(m.tid, m.slave, body[..|body| - 1], k))
            && (k == |FrameOf(m, cfg)| - 1 && !inBody && m.slave != m.pdu[0] ==>
                  p == Found(Frame(m.tid, m.slave, m.pdu[..|m.pdu| - 1]), k))
  {
    hide Requests.Decoded, Extracted, Parsed, FrameOf, IsKnownFunctionCode;
    var cfg := Config(inBody, PduOnly);
    var body := BodyOf(m, cfg);
    KnownWhenDecoded(m.pdu);
    if |m.pdu| < 5 {
      NeedsFive(m.pdu);
    }
    CutParsed(m, cfg, k);
    var short := body[..|body| - 1];
    ExtractedConsumes(m.tid, m.slave, short, k, 0);
    if !inBody && m.slave != m.pdu[0] {
      assert short[0] == m.pdu[0];
      ExtractedPlain(m.tid, m.slave, short, k);
    }
  }

  lemma {:induction false} ExtractedPlain(tid: U16, uid: Byte, body: seq<Byte>, consumed: nat)
    requires body != [] && body[0] != uid && IsKnownFunctionCode(body[0])
    ensures Extracted(tid, uid, body, consumed) == Found(Frame(tid, uid, body), consumed)
  {
  }

  // ── Reassembly ───────────────────────────────────────────────────────────

  /** The reads stop once one byte before the end of the frame, at the place where it is accepted too early. */
  predicate CutShort(m: Frame, cfg: Config, parts: seq<seq<Byte>>) {
    ShortAccepted(m, cfg) && parts != [] && |parts[|parts| - 1]| == 1
  }

  // One read that leaves the frame unfinished.
  lemma {:induction false} UnfinishedRead(m: Frame, cfg: Config, buf: seq<Byte>, chunk: seq<Byte>, rest: seq<seq<Byte>>)
    requires Sized(m) && |buf + chunk| < |FrameOf(m, cfg)| && buf + chunk == FrameOf(m, cfg)[..|buf + chunk|]
    requires !(|buf + chunk| == |FrameOf(m, cfg)| - 1 && ShortAccepted(m, cfg))
    ensures Expected(buf, [chunk] + rest) == Expected(buf + chunk, rest)
    ensures Left(buf, [chunk] + rest) == Left(buf + chunk, rest)
  {
    hide Parsed, HeaderCorrupt, FrameOf, ShortAccepted, Expected, Left;
    CutParsed(m, cfg, |buf + chunk|);
    ExpectedRead(buf, chunk, rest);
    assert Drained(buf + chunk) == ([], buf + chunk) && Kept(buf + chunk) == buf + chunk;
    assert [] + Expected(buf + chunk, rest) == Expected(buf + chunk, rest);
  }

  /**
   A frame that arrives in pieces, however it was cut, is handled as if it had arrived at once, unless it is cut short.
   */
  lemma {:induction false} PiecesReassembled(m: Frame, cfg: Config, buf: seq<Byte>, parts: seq<seq<Byte>>)
    requires Sized(m) && NonEmpty(parts) && parts != []
    requires buf + Joined(parts) == FrameOf(m, cfg) && !CutShort(m, cfg, parts)
    ensures Expected(buf, parts) == Expected([], [FrameOf(m, cfg)])
    ensures Left(buf, parts) == Left([], [FrameOf(m, cfg)])
    decreases |parts|
  {
    hide Parsed, Expected, Left, FrameOf, ShortAccepted;
    var frame := FrameOf(m, cfg);
    var first, rest := parts[0], parts[1..];
    NonEmptyRest(parts);
    JoinedNonEmpty(rest);
    assert parts == [first] + rest;
    assert [] + frame == frame && [frame] == [frame] + [];
    Associates(buf, first, Joined(rest));
    if rest == [] {
      assert buf + first == frame;
      ExpectedRead(buf, first, []);
      ExpectedRead([], frame, []);
    } else {
      assert buf + first == frame[..|buf + first|];
      JoinedOne(rest);
      UnfinishedRead(m, cfg, buf, first, rest);
      assert parts[|parts| - 1] == rest[|rest| - 1];
      PiecesReassembled(m, cfg, buf + first, rest);
    }
  }

  /** A frame that is cut short is taken for its shortened form, and its last byte is left in the buffer. */
  lemma {:induction false} PiecesCutShort(m: Frame, cfg: Config, buf: seq<Byte>, parts: seq<seq<Byte>>)
    requires Sized(m) && NonEmpty(parts) && |parts| >= 2
    requires buf + Joined(parts) == FrameOf(m, cfg) && CutShort(m, cfg, parts)
    ensures Expected(buf, parts) == [Shortened(m, cfg)]
    ensures Left(buf, parts) == parts[|parts| - 1]
    decreases |parts|
  {
    hide Parsed, Expected, Left, FrameOf, ShortAccepted, Shortened, Drained, Kept;
    var frame := FrameOf(m, cfg);
    var first, rest := parts[0], parts[1..];
    NonEmptyRest(parts);
    NonEmptyRest(rest);
    JoinedNonEmpty(rest);
    assert parts == [first] + rest;
    Associates(buf, first, Joined(rest));
    assert buf + first == frame[..|buf + first|];
    assert parts[|parts| - 1] == rest[|rest| - 1];
    if |rest| == 1 {
      JoinedOne(rest);
      CutParsed(m, cfg, |buf + first|);
      DrainsToNothing(buf + first);
      ExpectedRead(buf, first, rest);
      Scrap(rest[0]);
      assert [Shortened(m, cfg)] + [] == [Shortened(m, cfg)];
      assert rest == [rest[0]];
    } else {
      UnfinishedRead(m, cfg, buf, first, rest);
      PiecesCutShort(m, cfg, buf + first, rest);
    }
  }

  lemma {:induction false} DrainsToNothing(buf: seq<Byte>)
    requires Parsed(buf).Found? && Parsed(buf).consumed == |buf|
    ensures Drained(buf) == ([Parsed(buf).frame], []) && Kept([]) == []
  {
    hide Parsed, HeaderCorrupt;
    EmptyBuffer();
    assert buf[|buf|..] == [];
    assert [Parsed(buf).frame] + [] == [Parsed(buf).frame];
  }

  // Fewer bytes than a header wait in the buffer.
  lemma {:induction false} Scrap(chunk: seq<Byte>)
    requires |chunk| < MBAP_HEADER_SIZE
    ensures Expected([], [chunk]) == [] && Left([], [chunk]) == chunk
  {
    assert [chunk] == [chunk] + [] && [] + chunk == chunk;
    assert Parsed(chunk).Nothing? && Kept(chunk) == chunk;
    ExpectedRead([], chunk, []);
  }

  /**
   A request in pieces, exactly: it is read for what it is and leaves nothing behind if and only if it is not cut short.
   Standard frames never are.
   */
  lemma {:induction false} MessageInPieces(m: Frame, cfg: Config, parts: seq<seq<Byte>>)
    requires IsMessage(m) && NonEmpty(parts) && Joined(parts) == FrameOf(m, cfg)
    ensures Expected([], parts) == [ReadAs(m, cfg)] && Left([], parts) == [] <==> !CutShort(m, cfg, parts)
    ensures cfg.lengthMode.Standard? ==> !CutShort(m, cfg, parts)
  {
    hide Parsed, Expected, Left, FrameOf, Requests.Decoded, Drained, Kept;
    ExtractedBody(m, cfg, 0);
    var frame := FrameOf(m, cfg);
    assert [] + Joined(parts) == frame;
    if !CutShort(m, cfg, parts) {
      PiecesReassembled(m, cfg, [], parts);
      LoneFrame(m, cfg);
      DrainsToNothing(frame);
      assert [] + frame == frame && [frame] == [frame] + [];
      ExpectedRead([], frame, []);
      ExpectedEnd([]);
      assert [ReadAs(m, cfg)] + [] == [ReadAs(m, cfg)];
    } else {
      JoinedOne(parts);
      PiecesCutShort(m, cfg, [], parts);
    }
  }

  /** A frame of any PDU, not cut short: served as it parses, or left in the buffer. */
  lemma {:induction false} WholePieces(m: Frame, cfg: Config, parts: seq<seq<Byte>>)
    requires Sized(m) && NonEmpty(parts) && Joined(parts) == FrameOf(m, cfg) && !CutShort(m, cfg, parts)
    ensures var p := Parsed(FrameOf(m, cfg));
            && Expected([], parts) == (if p.Found? then [p.frame] else [])
            && Left([], parts) == (if p.Found? then [] else FrameOf(m, cfg))
  {
    hide Parsed, Expected, Left, FrameOf, Drained, Kept, ShortAccepted, Extracted;
    var frame := FrameOf(m, cfg);
    assert [] + Joined(parts) == frame && [] + frame == frame && [frame] == [frame] + [];
    PiecesReassembled(m, cfg, [], parts);
    LoneParsed(m, cfg);
    if Parsed(frame).Found? {
      ExtractedConsumes(m.tid, m.slave, BodyOf(m, cfg), |frame|, 0);
      DrainsToNothing(frame);
      ExpectedRead([], frame, []);
      ExpectedEnd([]);
      assert [Parsed(frame).frame] + [] == [Parsed(frame).frame];
    } else {
      DroppedStays(m, cfg);
    }
  }

  lemma {:induction false} ShortenedFrom(m: Frame, cfg: Config)
    requires ShortAccepted(m, cfg)
    ensures Shortened(m, cfg).slave == m.slave && Shortened(m, cfg).tid == m.tid
  {
    hide Requests.Decoded, IsKnownFunctionCode;
  }

  lemma {:induction false} PlainBody(m: Frame, mode: LengthMode)
    ensures BodyOf(m, Config(false, mode)) == m.pdu
  {
    hide FrameOf;
  }

  lemma {:induction false} ShortIs(m: Frame, cfg: Config, short: seq<Byte>)
    requires cfg.lengthMode.PduOnly? && |BodyOf(m, cfg)| > 1 && short == BodyOf(m, cfg)[..|BodyOf(m, cfg)| - 1]
    ensures ShortAccepted(m, cfg) <==> Extracted(m.tid, m.slave, short, 0).Found?
    ensures ShortAccepted(m, cfg) ==> Shortened(m, cfg) == Extracted(m.tid, m.slave, short, 0).frame
  {
    hide Extracted, BodyOf;
  }

  /** With the unit in the header alone and other than the function code, a shortened frame is taken as it is. */
  lemma {:induction false} PlainShortened(m: Frame)
    requires |m.pdu| > 1 && m.slave != m.pdu[0] && IsKnownFunctionCode(m.pdu[0])
    ensures var cfg := Config(false, PduOnly);
            ShortAccepted(m, cfg) && Shortened(m, cfg) == Frame(m.tid, m.slave, m.pdu[..|m.pdu| - 1])
  {
    hide Extracted, IsKnownFunctionCode, FrameOf, BodyOf, ShortAccepted, Shortened;
    var short := m.pdu[..|m.pdu| - 1];
    PlainBody(m, PduOnly);
    ExtractedPlain(m.tid, m.slave, short, 0);
    ShortIs(m, Config(false, PduOnly), short);
  }

  /**
   When a request is accepted short, from the request and the unit alone: with the unit in the body, if unit and
   truncated PDU together are a request; with the unit in the header alone, if it is not the function code, or if what
   follows that is a request even when truncated.
   */
  lemma {:induction false} ShortAcceptedExactly(req: Request, tid: U16, slave: Byte, inBody: bool)
    requires Requests.EncodedInto(req).ok && Requests.InRange(req)
    ensures |Requests.EncodedInto(req).appended| >= 5
    ensures var pdu := Requests.EncodedInto(req).appended;
            var n := |pdu|;
            ShortAccepted(Frame(tid, slave, pdu), Config(inBody, PduOnly))
            <==> if inBody then IsKnownFunctionCode(slave) && Requests.DecodedPdu([slave] + pdu[..n - 1]).Ok?
                 else slave != pdu[0] || (IsKnownFunctionCode(pdu[1]) && Requests.DecodedPdu(pdu[1..n - 1]).Ok?)
  {
    hide Requests.EncodedInto, Requests.InRange, Requests.Decoded, IsKnownFunctionCode, FrameOf, BodyOf, ShortAccepted,
      Shortened;
    var pdu := Requests.EncodedInto(req).appended;
    Requests.NotDisconnect(req);
    Requests.RequestRoundTrip(req, []);
    assert pdu + [] == pdu;
    KnownWhenDecoded(pdu);
    if |pdu| < 5 {
      NeedsFive(pdu);
    }
    var m, cut := Frame(tid, slave, pdu), pdu[..|pdu| - 1];
    Requests.TruncatedRefused(req, |pdu| - 1);
    if inBody {
      InBody(m, PduOnly);
      assert ([slave] + pdu)[..|pdu|] == [slave] + cut && ([slave] + cut)[1..] == cut;
      ShortIs(m, Config(true, PduOnly), [slave] + cut);
    } else {
      PlainBody(m, PduOnly);
      assert cut[1..] == pdu[1..|pdu| - 1];
      ShortIs(m, Config(false, PduOnly), cut);
    }
  }

  lemma {:induction false} ExtractedInner(tid: U16, uid: Byte, body: seq<Byte>, consumed: nat)
    requires |body| >= 2 && body[0] == uid && body[1] == 1 && Requests.DecodedPdu(body[1..]).Ok?
    ensures Extracted(tid, uid, body, consumed) == Found(Frame(tid, uid, body[1..]), consumed)
  {
    hide Requests.Decoded;
  }

  /** The ambiguous requests are still taken for a coil read when they are cut short. */
  lemma {:induction false} AmbiguousShortened(req: Request, tid: U16)
    requires Requests.EncodedInto(req).ok && RequestFunction(req) in {15, 16, 22, 23} && Requests.InRange(req)
    requires 256 <= req.addr < 496 && 1 <= SecondField(req) <= 6
    ensures var m, cfg := Frame(tid, RequestFunction(req), Requests.EncodedInto(req).appended), Config(false, PduOnly);
            && ShortAccepted(m, cfg)
            && Requests.DecodedPdu(Shortened(m, cfg).pdu).Ok? && Requests.DecodedPdu(Shortened(m, cfg).pdu).value.ReadCoils?
  {
    hide Requests.EncodedInto, Requests.Decoded, FrameOf, BodyOf, ShortAccepted, Shortened, Extracted;
    var m := Frame(tid, RequestFunction(req), Requests.EncodedInto(req).appended);
    AtLeastSeven(req);
    FirstFields(req);
    hide Requests.InRange, SecondField;
    var short := m.pdu[..|m.pdu| - 1];
    assert short[1] == 1;
    ReadsAsCoils(short[1..]);
    PlainBody(m, PduOnly);
    ExtractedInner(tid, m.slave, short, 0);
    ShortIs(m, Config(false, PduOnly), short);
  }

  lemma {:induction false} AtLeastSeven(req: Request)
    requires Requests.EncodedInto(req).ok && RequestFunction(req) in {15, 16, 22, 23} && Requests.InRange(req)
    ensures |Requests.EncodedInto(req).appended| >= 7
  {
    hide Requests.EncodedInto;
    Requests.EncoderLimits(req);
  }

  // ── Streams of frames ────────────────────────────────────────────────────

  predicate AllMessages(ms: seq<Frame>) {
    forall m :: m in ms ==> IsMessage(m)
  }

  /** What the parser takes the messages of a stream for. */
  function ReadAll(ms: seq<Frame>, cfg: Config): (read: seq<Frame>)
    ensures |read| == |ms|
  {
    if ms == [] then [] else [ReadAs(ms[0], cfg)] + ReadAll(ms[1..], cfg)
  }

  lemma {:induction false} ReadAllJoins(a: seq<Frame>, b: seq<Frame>, cfg: Config)
    ensures ReadAll(a + b, cfg) == ReadAll(a, cfg) + ReadAll(b, cfg)
  {
    hide ReadAs;
    if a == [] {
      assert a + b == b;
    } else {
      assert (a + b)[1..] == a[1..] + b;
      ReadAllJoins(a[1..], b, cfg);
    }
  }

  lemma {:induction false} ReadAsThemselves(ms: seq<Frame>, cfg: Config)
    requires forall m :: m in ms ==> !Ambiguous(m, cfg)
    ensures ReadAll(ms, cfg) == ms
  {
    hide Ambiguous;
    if ms != [] {
      assert ms[0] in ms;
      ReadAsThemselves(ms[1..], cfg);
    }
  }

  function Stream(ms: seq<Frame>, cfg: Config): seq<Byte> {
    if ms == [] then [] else FrameOf(ms[0], cfg) + Stream(ms[1..], cfg)
  }

  // A position in a stream: the frames that end before it, those that do not, and how far into the first of these it is.

  function Before(ms: seq<Frame>, cfg: Config, pos: nat): seq<Frame> {
    if ms == [] || pos < |FrameOf(ms[0], cfg)| then []
    else [ms[0]] + Before(ms[1..], cfg, pos - |FrameOf(ms[0], cfg)|)
  }

  function After(ms: seq<Frame>, cfg: Config, pos: nat): seq<Frame> {
    if ms == [] || pos < |FrameOf(ms[0], cfg)| then ms else After(ms[1..], cfg, pos - |FrameOf(ms[0], cfg)|)
  }

  function Into(ms: seq<Frame>, cfg: Config, pos: nat): nat {
    if ms == [] || pos < |FrameOf(ms[0], cfg)| then pos else Into(ms[1..], cfg, pos - |FrameOf(ms[0], cfg)|)
  }

  lemma {:induction false} DropBeyond(a: seq<Byte>, b: seq<Byte>, k: nat)
    requires |a| <= k <= |a + b|
    ensures (a + b)[k..] == b[k - |a|..]
  {
  }

  lemma {:induction false} SplitAt(ms: seq<Frame>, cfg: Config, pos: nat)
    requires pos <= |Stream(ms, cfg)| && AllMessages(ms)
    ensures var ms', k := After(ms, cfg, pos), Into(ms, cfg, pos);
            && Before(ms, cfg, pos) + ms' == ms && AllMessages(ms')
            && k <= |Stream(ms', cfg)| && Stream(ms, cfg)[pos..] == Stream(ms', cfg)[k..]
            && (if ms' == [] then k == 0 else k < |FrameOf(ms'[0], cfg)|)
  {
    hide FrameOf, IsMessage;
    if ms != [] && pos >= |FrameOf(ms[0], cfg)| {
      var frame, rest := FrameOf(ms[0], cfg), Stream(ms[1..], cfg);
      SplitAt(ms[1..], cfg, pos - |frame|);
      DropBeyond(frame, rest, pos);
      assert [ms[0]] + ms[1..] == ms;
      Associates([ms[0]], Before(ms[1..], cfg, pos - |frame|), After(ms, cfg, pos));
    }
  }

  /**
   A read from one position of the stream to another is harmless: with the standard length it does not run past the end
   of the frame it starts in, and with the other it does not stop where a frame would be accepted too early.
   */
  predicate HarmlessRead(ms: seq<Frame>, cfg: Config, start: nat, end: nat)
    requires start <= end
  {
    if ms == [] then true
    else
      var size := |FrameOf(ms[0], cfg)|;
      if start >= size then HarmlessRead(ms[1..], cfg, start - size, end - size)
      else if cfg.lengthMode.Standard? then end <= size
      else HarmlessStop(ms, cfg, end)
  }

  predicate HarmlessStop(ms: seq<Frame>, cfg: Config, pos: nat) {
    if ms == [] then true
    else
      var size := |FrameOf(ms[0], cfg)|;
      if pos >= size then HarmlessStop(ms[1..], cfg, pos - size)
      else !(pos == size - 1 && ShortAccepted(ms[0], cfg))
  }

  predicate HarmlessReads(ms: seq<Frame>, cfg: Config, pos: nat, parts: seq<seq<Byte>>)
    decreases |parts|
  {
    parts == []
    || (HarmlessRead(ms, cfg, pos, pos + |parts[0]|) && HarmlessReads(ms, cfg, pos + |parts[0]|, parts[1..]))
  }

  lemma {:induction false} HarmlessShift(ms: seq<Frame>, cfg: Config, pos: nat, parts: seq<seq<Byte>>)
    requires ms != [] && pos >= |FrameOf(ms[0], cfg)|
    ensures HarmlessReads(ms, cfg, pos, parts) <==> HarmlessReads(ms[1..], cfg, pos - |FrameOf(ms[0], cfg)|, parts)
    decreases |parts|
  {
    hide FrameOf, HarmlessStop;
    if parts != [] {
      HarmlessShift(ms, cfg, pos + |parts[0]|, parts[1..]);
    }
  }

  lemma {:induction false} HarmlessAfter(ms: seq<Frame>, cfg: Config, pos: nat, parts: seq<seq<Byte>>)
    ensures HarmlessReads(ms, cfg, pos, parts) <==> HarmlessReads(After(ms, cfg, pos), cfg, Into(ms, cfg, pos), parts)
    decreases |ms|
  {
    hide FrameOf, HarmlessRead;
    if ms != [] && pos >= |FrameOf(ms[0], cfg)| {
      HarmlessShift(ms, cfg, pos, parts);
      HarmlessAfter(ms[1..], cfg, pos - |FrameOf(ms[0], cfg)|, parts);
    }
  }

  // The part of a stream up to a position inside its first frame.
  lemma {:induction false} UnfinishedDrained(ms: seq<Frame>, cfg: Config, pos: nat)
    requires AllMessages(ms) && pos <= |Stream(ms, cfg)|
    requires if ms == [] then pos == 0
             else pos < |FrameOf(ms[0], cfg)| && !(pos == |FrameOf(ms[0], cfg)| - 1 && ShortAccepted(ms[0], cfg))
    ensures var buf := Stream(ms, cfg)[..pos];
            Drained(buf) == ([], buf) && Kept(buf) == buf
  {
    hide Parsed, HeaderCorrupt, FrameOf, ShortAccepted, IsMessage;
    if ms == [] {
      EmptyBuffer();
    } else {
      assert ms[0] in ms;
      MessageSized(ms[0]);
      CutParsed(ms[0], cfg, pos);
      assert Stream(ms, cfg)[..pos] == FrameOf(ms[0], cfg)[..pos];
    }
  }

  lemma {:induction false} MessageSized(m: Frame)
    requires IsMessage(m)
    ensures Sized(m)
  {
    KnownWhenDecoded(m.pdu);
  }

  lemma {:induction false} StandardNeverShort(m: Frame, cfg: Config)
    ensures cfg.lengthMode.Standard? ==> !ShortAccepted(m, cfg)
  {
  }

  lemma {:induction false} HarmlessFrom(ms: seq<Frame>, cfg: Config, end: nat)
    requires cfg.lengthMode.PduOnly? && HarmlessStop(ms, cfg, end)
    ensures HarmlessRead(ms, cfg, 0, end)
  {
    hide ShortAccepted;
  }

  lemma {:induction false} StandardFrom(ms: seq<Frame>, cfg: Config)
    requires cfg.lengthMode.Standard?
    ensures HarmlessRead(ms, cfg, 0, 0)
  {
  }

  // The first frame of a stream, when the buffer reaches its end.
  lemma {:induction false} FirstTaken(ms: seq<Frame>, cfg: Config, start: nat, end: nat)
    requires AllMessages(ms) && ms != [] && start <= end <= |Stream(ms, cfg)| && HarmlessRead(ms, cfg, start, end)
    requires start < |FrameOf(ms[0], cfg)| <= end
    ensures var rest, left := Stream(ms[1..], cfg), end - |FrameOf(ms[0], cfg)|;
            && left <= |rest| && AllMessages(ms[1..]) && HarmlessRead(ms[1..], cfg, 0, left)
            && Drained(Stream(ms, cfg)[..end]) == Prepended(ReadAs(ms[0], cfg), Drained(rest[..left]))
  {
    hide Parsed, FrameOf, ShortAccepted, IsMessage;
    var frame, rest := FrameOf(ms[0], cfg), Stream(ms[1..], cfg);
    var tail := rest[..end - |frame|];
    assert ms[0] in ms;
    assert (frame + rest)[..end] == frame + tail && (frame + tail)[|frame|..] == tail;
    if cfg.lengthMode.PduOnly? {
      PduOnlyFrame(ms[0], cfg.unitIdInBody, tail);
      HarmlessFrom(ms[1..], cfg, end - |frame|);
    } else {
      LoneFrame(ms[0], cfg);
      assert tail == [] && frame + tail == frame;
      StandardFrom(ms[1..], cfg);
    }
  }

  /** What a buffer that starts with whole frames gives, when its end is harmless: those frames, in order. */
  lemma {:induction false} StreamDrained(ms: seq<Frame>, cfg: Config, start: nat, end: nat)
    requires AllMessages(ms) && start <= end <= |Stream(ms, cfg)| && HarmlessRead(ms, cfg, start, end)
    requires ms != [] ==> start < |FrameOf(ms[0], cfg)|
    ensures var ms', k := After(ms, cfg, end), Into(ms, cfg, end);
            && k <= |Stream(ms', cfg)|
            && Drained(Stream(ms, cfg)[..end]) == (ReadAll(Before(ms, cfg, end), cfg), Stream(ms', cfg)[..k])
            && Kept(Stream(ms', cfg)[..k]) == Stream(ms', cfg)[..k]
    decreases |ms|
  {
    hide Drained, Kept, FrameOf, ShortAccepted, IsMessage;
    SplitAt(ms, cfg, end);
    if ms == [] || end < |FrameOf(ms[0], cfg)| {
      if ms != [] {
        StandardNeverShort(ms[0], cfg);
      }
      UnfinishedDrained(ms, cfg, end);
    } else {
      FirstTaken(ms, cfg, start, end);
      NotEmpty(ms[1..], cfg);
      StreamDrained(ms[1..], cfg, 0, end - |FrameOf(ms[0], cfg)|);
    }
  }

  lemma {:induction false} NotEmpty(ms: seq<Frame>, cfg: Config)
    ensures ms != [] ==> 0 < |FrameOf(ms[0], cfg)|
  {
  }

  lemma {:induction false} StreamSize(ms: seq<Frame>, cfg: Config)
    ensures ms != [] ==> |Stream(ms, cfg)| >= |FrameOf(ms[0], cfg)|
  {
  }

  // One harmless read: what is left to do is a run of the frames that are not finished.
  lemma {:induction false} HarmlessStep(ms: seq<Frame>, cfg: Config, pos: nat, first: seq<Byte>, rest: seq<seq<Byte>>)
    requires AllMessages(ms) && HarmlessRead(ms, cfg, pos, pos + |first|)
    requires pos <= |Stream(ms, cfg)| && first + Joined(rest) == Stream(ms, cfg)[pos..]
    requires if ms == [] then pos == 0 else pos < |FrameOf(ms[0], cfg)|
    ensures var ms', k := After(ms, cfg, pos + |first|), Into(ms, cfg, pos + |first|);
            && AllMessages(ms') && k <= |Stream(ms', cfg)| && Joined(rest) == Stream(ms', cfg)[k..]
            && (if ms' == [] then k == 0 else k < |FrameOf(ms'[0], cfg)|)
            && (HarmlessReads(ms, cfg, pos + |first|, rest) <==> HarmlessReads(ms', cfg, k, rest))
            && var buf, buf' := Stream(ms, cfg)[..pos], Stream(ms', cfg)[..k];
            && (Expected(buf, [first] + rest) == ReadAll(ms, cfg) <==> Expected(buf', rest) == ReadAll(ms', cfg))
            && Left(buf, [first] + rest) == Left(buf', rest)
            && Dropped(buf, [first] + rest) == Dropped(buf', rest)
  {
    hide Parsed, Kept, Drained, FrameOf, HarmlessRead, IsMessage, Expected, Left, Dropped, Stream;
    var all, end := Stream(ms, cfg), pos + |first|;
    assert first == all[pos..][..|first|] && Joined(rest) == all[pos..][|first|..] == all[end..];
    assert all[..pos] + first == all[..end];
    StreamDrained(ms, cfg, pos, end);
    SplitAt(ms, cfg, end);
    HarmlessAfter(ms, cfg, end, rest);
    ExpectedRead(all[..pos], first, rest);
    DroppedRead(all[..pos], first, rest);
    var ms', k := After(ms, cfg, end), Into(ms, cfg, end);
    ReadAllJoins(Before(ms, cfg, end), ms', cfg);
    SamePrefix(ReadAll(Before(ms, cfg, end), cfg), Expected(Stream(ms', cfg)[..k], rest), ReadAll(ms', cfg));
  }

  lemma {:induction false} SamePrefix<X>(a: seq<X>, b: seq<X>, c: seq<X>)
    ensures a + b == a + c <==> b == c
  {
    assert (a + b)[|a|..] == b && (a + c)[|a|..] == c;
  }

  /**
   A run whose reads are harmless dispatches exactly the messages sent, in order and each as what it is read as, drops
   nothing and leaves nothing behind: cut frames are put together again, and frames that arrive together taken apart.
   */
  lemma {:induction false} WholeFrameRun(ms: seq<Frame>, cfg: Config, pos: nat, parts: seq<seq<Byte>>)
    requires AllMessages(ms) && HarmlessReads(ms, cfg, pos, parts)
    requires pos <= |Stream(ms, cfg)| && Joined(parts) == Stream(ms, cfg)[pos..]
    requires if ms == [] then pos == 0 else pos < |FrameOf(ms[0], cfg)|
    ensures var buf := Stream(ms, cfg)[..pos];
            Expected(buf, parts) == ReadAll(ms, cfg) && Left(buf, parts) == [] && Dropped(buf, parts) == 0
    decreases |parts|
  {
    hide FrameOf, HarmlessRead, IsMessage, Expected, Left, Dropped;
    if parts == [] {
      ExpectedEnd(Stream(ms, cfg)[..pos]);
      StreamSize(ms, cfg);
    } else {
      var first, rest := parts[0], parts[1..];
      assert parts == [first] + rest;
      HarmlessStep(ms, cfg, pos, first, rest);
      WholeFrameRun(After(ms, cfg, pos + |first|), cfg, Into(ms, cfg, pos + |first|), rest);
    }
  }

  /** Back-to-back frames in the buffer are split exactly where they were joined, if the length counts the PDU alone. */
  lemma {:induction false} PduOnlyStream(ms: seq<Frame>, inBody: bool)
    requires AllMessages(ms)
    ensures Drained(Stream(ms, Config(inBody, PduOnly))) == (ReadAll(ms, Config(inBody, PduOnly)), [])
  {
    hide Parsed, IsMessage, FrameOf;
    var cfg := Config(inBody, PduOnly);
    if ms == [] {
      EmptyBuffer();
    } else {
      assert ms[0] in ms;
      var frame, rest := FrameOf(ms[0], cfg), Stream(ms[1..], cfg);
      PduOnlyFrame(ms[0], inBody, rest);
      assert (frame + rest)[|frame|..] == rest;
      PduOnlyStream(ms[1..], inBody);
    }
  }

  // ── A refused frame ──────────────────────────────────────────────────────

  /** A complete frame the parser refuses: it sits at the front of the buffer and nothing behind it can be reached. */
  predicate Blocked(buf: seq<Byte>) {
    && |buf| >= MBAP_HEADER_SIZE && !HeaderCorrupt(buf) && |buf| >= MBAP_HEADER_SIZE + LengthOf(buf)
    && Extracted(TidOf(buf), buf[6], buf[MBAP_HEADER_SIZE..MBAP_HEADER_SIZE + LengthOf(buf)], 0).Nothing?
  }

  lemma {:induction false} BlockedStays(buf: seq<Byte>, more: seq<Byte>)
    requires Blocked(buf)
    ensures Blocked(buf + more) && Parsed(buf + more).Nothing? && !HeaderCorrupt(buf + more)
  {
    hide BeU16, Requests.Decoded, IsKnownFunctionCode;
    var all := buf + more;
    var end := MBAP_HEADER_SIZE + LengthOf(buf);
    assert all[MBAP_HEADER_SIZE..end] == buf[MBAP_HEADER_SIZE..end];
  }

  lemma {:induction false} ExtractedUnknown(tid: U16, uid: Byte, body: seq<Byte>, consumed: nat)
    requires body != [] && body[0] != uid && !IsKnownFunctionCode(body[0])
    ensures Extracted(tid, uid, body, consumed).Nothing?
  {
    hide Requests.Decoded;
  }

  lemma {:induction false} FrameHeader(m: Frame, cfg: Config, more: seq<Byte>)
    requires Sized(m)
    ensures var buf, body := FrameOf(m, cfg) + more, BodyOf(m, cfg);
            && !HeaderCorrupt(buf) && |FrameOf(m, cfg)| <= MAX_TCP_BUF_BYTES
            && TidOf(buf) == m.tid && buf[6] == m.slave
            && LengthOf(buf) == |body| + (if cfg.lengthMode.Standard? then 1 else 0)
            && buf[MBAP_HEADER_SIZE..] == body + more
  {
    hide BeBytes, FrameOf, Framed, TidOf, ProtocolOf, LengthOf;
    FrameIs(m, cfg);
    HeaderFields(m.tid, LengthField(|m.pdu|, cfg), m.slave, BodyOf(m, cfg), more);
  }

  // A frame that is dropped by the parser stays in the buffer.
  lemma {:induction false} DroppedStays(m: Frame, cfg: Config)
    requires Sized(m) && Parsed(FrameOf(m, cfg)).Nothing?
    ensures Expected([], [FrameOf(m, cfg)]) == [] && Left([], [FrameOf(m, cfg)]) == FrameOf(m, cfg)
  {
    hide Parsed, HeaderCorrupt, FrameOf, Expected, Left;
    var frame := FrameOf(m, cfg);
    FrameHeader(m, cfg, []);
    assert frame + [] == frame && [] + frame == frame && [frame] == [frame] + [];
    assert Drained(frame) == ([], frame) && Kept(frame) == frame;
    ExpectedRead([], frame, []);
    ExpectedEnd(frame);
  }

  /** A frame at the front of the buffer, as far as the parser looks at it, is blocked exactly when it is not parsed. */
  lemma {:induction false} BlockedExactly(m: Frame, cfg: Config, more: seq<Byte>)
    requires Sized(m) && (cfg.lengthMode.PduOnly? || more != [])
    ensures Blocked(FrameOf(m, cfg) + more) <==> Parsed(FrameOf(m, cfg) + more).Nothing?
    ensures cfg.lengthMode.PduOnly? ==>
              (Blocked(FrameOf(m, cfg) + more) <==> Extracted(m.tid, m.slave, BodyOf(m, cfg), 0).Nothing?)
    ensures cfg.lengthMode.Standard? ==>
              (Blocked(FrameOf(m, cfg) + more) <==> Extracted(m.tid, m.slave, BodyOf(m, cfg) + [more[0]], 0).Nothing?)
  {
    hide Extracted, FrameOf, HeaderCorrupt, TidOf, LengthOf, Parsed, BodyOf;
    var frame, body := FrameOf(m, cfg), BodyOf(m, cfg);
    FrameHeader(m, cfg, more);
    SliceBody(frame + more, body, more);
    FrameParsed(m, cfg, more);
    if cfg.lengthMode.PduOnly? {
      ExtractedConsumes(m.tid, m.slave, body, |frame|, 0);
    } else {
      ExtractedConsumes(m.tid, m.slave, body + [more[0]], |frame| + 1, 0);
    }
  }

  /** When a body is taken for a request on the word of its first byte being the unit. */
  predicate TakenForUnit(slave: Byte, body: seq<Byte>)
    requires |body| >= 2
  {
    && body[0] == slave
    && ((IsKnownFunctionCode(body[1]) && Requests.DecodedPdu(body[1..]).Ok?)
        || (IsKnownFunctionCode(body[0]) && Requests.DecodedPdu(body).Ok?))
  }

  /**
   What becomes of a refused frame, exactly.  With the length counting the PDU alone it blocks the connection.  In
   standard mode the parser tries it again with the next byte: it blocks the connection unless body and byte together
   are a request, and then that request, which nobody sent, is dispatched.
   */
  lemma {:induction false} RefusedGoesOn(m: Frame, cfg: Config, more: seq<Byte>)
    requires Sized(m) && Parsed(FrameOf(m, cfg)).Nothing? && (cfg.lengthMode.PduOnly? || more != [])
    ensures cfg.lengthMode.PduOnly? ==> Blocked(FrameOf(m, cfg) + more)
    ensures cfg.lengthMode.Standard? ==>
              var longer := BodyOf(m, cfg) + [more[0]];
              && (Blocked(FrameOf(m, cfg) + more) <==> Extracted(m.tid, m.slave, longer, 0).Nothing?)
              && (Blocked(FrameOf(m, cfg) + more) <==> !TakenForUnit(m.slave, longer))
              && (!Blocked(FrameOf(m, cfg) + more) ==>
                    Parsed(FrameOf(m, cfg) + more)
                    == Found(Extracted(m.tid, m.slave, longer, 0).frame, |FrameOf(m, cfg)| + 1))
  {
    hide Extracted, FrameOf, Blocked, Parsed, BodyOf, TakenForUnit;
    var frame, body := FrameOf(m, cfg), BodyOf(m, cfg);
    BlockedExactly(m, cfg, more);
    LoneParsed(m, cfg);
    ExtractedConsumes(m.tid, m.slave, body, |frame|, 0);
    if cfg.lengthMode.Standard? {
      FrameParsed(m, cfg, more);
      ExtractedConsumes(m.tid, m.slave, body + [more[0]], |frame| + 1, 0);
      LongerExtracted(m.tid, m.slave, body, more[0]);
    }
  }

  lemma {:induction false} LongerExtracted(tid: U16, uid: Byte, body: seq<Byte>, next: Byte)
    requires body != [] && Extracted(tid, uid, body, 0).Nothing?
    ensures Extracted(tid, uid, body + [next], 0).Found? <==> TakenForUnit(uid, body + [next])
  {
    hide Requests.Decoded, IsKnownFunctionCode;
  }

  /**
   It happens: a read of 65535 coils by a gateway client from unit 22 is refused, and the first byte of whatever the
   client sends next turns it into a masked write.
   */
  lemma {:induction false} StrayWrite(tid: U16, hi: Byte, lo: Byte, next: Byte, more: seq<Byte>)
    ensures var m, cfg := Frame(tid, 22, [1, hi, lo, 0xFF, 0xFF]), Config(true, Standard);
            var taken := Frame(tid, 22, [22, 1, hi, lo, 0xFF, 0xFF, next]);
            && Requests.DecodedPdu(m.pdu).Err? && !Misread(m, cfg) && Parsed(FrameOf(m, cfg)).Nothing?
            && Parsed(FrameOf(m, cfg) + ([next] + more)) == Found(taken, |FrameOf(m, cfg)| + 1)
            && Requests.DecodedPdu(taken.pdu)
               == Ok(Request.MaskWriteRegister(BeU16(1, hi), BeU16(lo, 0xFF), BeU16(0xFF, next)))
  {
    hide Parsed, FrameOf, Extracted, Blocked, BodyOf;
    var m, cfg := Frame(tid, 22, [1, hi, lo, 0xFF, 0xFF]), Config(true, Standard);
    StrayDecoded(hi, lo, next);
    assert [m.slave] + m.pdu == [22, 1, hi, lo, 0xFF, 0xFF];
    RefusedFrame(m, cfg);
    RefusedGoesOn(m, cfg, [next] + more);
    InBody(m, Standard);
    assert BodyOf(m, cfg) + [next] == [22, 1, hi, lo, 0xFF, 0xFF, next];
    StrayExtracted(tid, hi, lo, next);
  }

  lemma {:induction false} InBody(m: Frame, mode: LengthMode)
    ensures BodyOf(m, Config(true, mode)) == [m.slave] + m.pdu
  {
    hide FrameOf;
  }

  lemma {:induction false} StrayDecoded(hi: Byte, lo: Byte, next: Byte)
    ensures Requests.DecodedPdu([1, hi, lo, 0xFF, 0xFF]).Err?
    ensures Requests.DecodedPdu([22, 1, hi, lo, 0xFF, 0xFF]).Err?
    ensures Requests.DecodedPdu([1, hi, lo, 0xFF, 0xFF, next]).Err?
    ensures Requests.DecodedPdu([22, 1, hi, lo, 0xFF, 0xFF, next])
         == Ok(Request.MaskWriteRegister(BeU16(1, hi), BeU16(lo, 0xFF), BeU16(0xFF, next)))
  {
  }

  lemma {:induction false} StrayExtracted(tid: U16, hi: Byte, lo: Byte, next: Byte)
    ensures var body := [22, 1, hi, lo, 0xFF, 0xFF, next];
            TakenForUnit(22, body) && Extracted(tid, 22, body, 0) == Found(Frame(tid, 22, body), 0)
  {
    hide Requests.Decoded;
    StrayDecoded(hi, lo, next);
    assert [22, 1, hi, lo, 0xFF, 0xFF, next][1..] == [1, hi, lo, 0xFF, 0xFF, next];
  }

  /** A frame with an unknown function code, for example, blocks the connection. */
  lemma {:induction false} UnknownFunctionBlocks(m: Frame, cfg: Config, more: seq<Byte>)
    requires Sized(m) && !IsKnownFunctionCode(m.pdu[0]) && m.slave != m.pdu[0] && !cfg.unitIdInBody
    ensures Parsed(FrameOf(m, cfg)).Nothing? && Left([], [FrameOf(m, cfg)]) == FrameOf(m, cfg)
    ensures cfg.lengthMode.PduOnly? || more != [] ==> Blocked(FrameOf(m, cfg) + more)
  {
    hide Extracted, IsKnownFunctionCode, FrameOf, HeaderCorrupt, TidOf, LengthOf, Parsed;
    var frame, body := FrameOf(m, cfg), BodyOf(m, cfg);
    assert body == m.pdu;
    LoneParsed(m, cfg);
    ExtractedUnknown(m.tid, m.slave, body, |frame|);
    DroppedStays(m, cfg);
    FrameHeader(m, cfg, more);
    SliceBody(frame + more, body, more);
    if cfg.lengthMode.PduOnly? {
      ExtractedUnknown(m.tid, m.slave, body, 0);
    } else if more != [] {
      ExtractedUnknown(m.tid, m.slave, body + [more[0]], 0);
    }
  }

  lemma {:induction false} BlockedRead(buf: seq<Byte>, chunk: seq<Byte>, rest: seq<seq<Byte>>)
    requires Blocked(buf)
    ensures var next := if |buf + chunk| <= MAX_TCP_BUF_BYTES then buf + chunk else [];
            Expected(buf, [chunk] + rest) == Expected(next, rest) && Left(buf, [chunk] + rest) == Left(next, rest)
  {
    hide Parsed, HeaderCorrupt, Expected, Left, Blocked;
    BlockedStays(buf, chunk);
    ExpectedRead(buf, chunk, rest);
    assert Drained(buf + chunk) == ([], buf + chunk);
    assert forall s: seq<Frame> :: [] + s == s;
  }

  /**
   A refused frame stops the connection until the buffer exceeds its cap: nothing is dispatched before the read that
   takes it over 1040 bytes, that read is dropped as well, and what comes after is served as by a fresh connection.
   */
  lemma {:induction false} BlockedRun(buf: seq<Byte>, before: seq<seq<Byte>>, chunk: seq<Byte>, rest: seq<seq<Byte>>)
    requires Blocked(buf) && |buf| + TotalSize(before) <= MAX_TCP_BUF_BYTES < |buf| + TotalSize(before) + |chunk|
    ensures Expected(buf, before) == [] && Left(buf, before) == buf + Joined(before)
    ensures Expected(buf, before + ([chunk] + rest)) == Expected([], rest)
    ensures Left(buf, before + ([chunk] + rest)) == Left([], rest)
    decreases |before|
  {
    hide Parsed, LengthOf, Extracted, Expected, Left, Blocked;
    if before == [] {
      assert before + ([chunk] + rest) == [chunk] + rest;
      ExpectedEnd(buf);
      BlockedRead(buf, chunk, rest);
      assert buf + [] == buf;
    } else {
      var first, later := before[0], before[1..];
      Associates(buf, first, Joined(later));
      assert before == [first] + later && before + ([chunk] + rest) == [first] + (later + ([chunk] + rest));
      BlockedStays(buf, first);
      BlockedRead(buf, first, later);
      BlockedRead(buf, first, later + ([chunk] + rest));
      BlockedRun(buf + first, later, chunk, rest);
    }
  }

  // ── The next frame on a connection that is not clear ─────────────────────

  lemma {:induction false} RawHeader(m: Frame, cfg: Config)
    requires Sized(m)
    ensures var f := FrameOf(m, cfg);
            && f[2] == 0 && f[3] == 0 && f[4] == 0 && f[6] == m.slave
            && f[5] == |BodyOf(m, cfg)| + (if cfg.lengthMode.Standard? then 1 else 0)
  {
    hide FrameOf, Framed, BeBytes;
    FrameIs(m, cfg);
    var length := LengthField(|m.pdu|, cfg);
    SmallWord(length);
    SmallWord(0);
    PairOfWord(m.tid);
    FramedBytes(m.tid, length, m.slave, BodyOf(m, cfg));
  }

  lemma {:induction false} SmallWord(v: U16)
    requires v < 256
    ensures BeBytes(v) == [0, v]
  {
  }

  lemma {:induction false} FramedBytes(tid: U16, length: U16, uid: Byte, body: seq<Byte>)
    requires BeBytes(0) == [0, 0] && BeBytes(length) == [0, length]
    ensures var f := Framed(tid, length, uid, body);
            f[2] == 0 && f[3] == 0 && f[4] == 0 && f[5] == length && f[6] == uid
  {
    hide BeBytes;
    PairOfWord(tid);
    var f := Framed(tid, length, uid, body);
    HeaderBytes(BeBytes(tid), BeBytes(0), BeBytes(length), uid, body, []);
    assert f + [] == f;
  }

  // A read that ends in bytes the parser can make nothing of, with a corrupt header.
  lemma {:induction false} CorruptRead(buf: seq<Byte>, chunk: seq<Byte>, rest: seq<seq<Byte>>)
    requires Parsed(buf + chunk).Nothing? && HeaderCorrupt(buf + chunk)
    ensures Expected(buf, [chunk] + rest) == Expected([], rest) && Left(buf, [chunk] + rest) == Left([], rest)
  {
    hide Parsed, HeaderCorrupt, Expected, Left;
    ExpectedRead(buf, chunk, rest);
    assert Drained(buf + chunk) == ([], buf + chunk) && Kept(buf + chunk) == [];
    assert [] + Expected([], rest) == Expected([], rest);
  }

  /** A stray byte in the buffer costs the next frame: the read that brings its header is dropped as corrupt. */
  lemma {:induction false} AfterStrayByte(b: Byte, m: Frame, cfg: Config, k: nat, rest: seq<seq<Byte>>)
    requires Sized(m) && MBAP_PREFIX_SIZE <= k <= |FrameOf(m, cfg)|
    ensures var chunk := FrameOf(m, cfg)[..k];
            Expected([b], [chunk] + rest) == Expected([], rest) && Left([b], [chunk] + rest) == Left([], rest)
  {
    hide FrameOf, Extracted, Expected, Left;
    var chunk := FrameOf(m, cfg)[..k];
    var buf := [b] + chunk;
    RawHeader(m, cfg);
    assert buf[4] == FrameOf(m, cfg)[3] && buf[5] == FrameOf(m, cfg)[4];
    CorruptRead([b], chunk, rest);
  }

  /** A refused frame and the next one, in standard mode, when the two together make a request that nobody sent. */
  lemma {:induction false} AfterRefusedFrame(m: Frame, next: Frame, cfg: Config, k: nat, rest: seq<seq<Byte>>)
    requires Sized(m) && Sized(next) && cfg.lengthMode.Standard? && Parsed(FrameOf(m, cfg)).Nothing?
    requires MBAP_HEADER_SIZE < k <= |FrameOf(next, cfg)| && !Blocked(FrameOf(m, cfg) + FrameOf(next, cfg))
    ensures var buf, chunk := FrameOf(m, cfg), FrameOf(next, cfg)[..k];
            var p := Extracted(m.tid, m.slave, BodyOf(m, cfg) + [chunk[0]], 0);
            && p.Found?
            && Expected(buf, [chunk] + rest) == [p.frame] + Expected([], rest)
            && Left(buf, [chunk] + rest) == Left([], rest)
  {
    hide FrameOf, Extracted, Expected, Left, Blocked, Parsed, BodyOf, TakenForUnit;
    var buf, chunk := FrameOf(m, cfg), FrameOf(next, cfg)[..k];
    RefusedGoesOn(m, cfg, FrameOf(next, cfg));
    FrameParsed(m, cfg, FrameOf(next, cfg));
    FrameParsed(m, cfg, chunk);
    assert FrameOf(next, cfg)[0] == chunk[0];
    var tail := chunk[1..];
    assert (buf + chunk)[|buf| + 1..] == tail;
    ShiftedHeader(next, cfg, k);
    ExpectedRead(buf, chunk, rest);
    assert Drained(tail) == ([], tail) && Kept(tail) == [];
    var p := Extracted(m.tid, m.slave, BodyOf(m, cfg) + [chunk[0]], 0);
    assert [p.frame] + [] == [p.frame];
  }

  lemma {:induction false} ShiftedHeader(m: Frame, cfg: Config, k: nat)
    requires Sized(m) && cfg.lengthMode.Standard? && MBAP_HEADER_SIZE < k <= |FrameOf(m, cfg)|
    ensures var tail := FrameOf(m, cfg)[..k][1..];
            Parsed(tail).Nothing? && HeaderCorrupt(tail)
  {
    hide FrameOf, Extracted;
    RawHeader(m, cfg);
    var tail := FrameOf(m, cfg)[..k][1..];
    assert tail[4] == FrameOf(m, cfg)[5] && tail[5] == FrameOf(m, cfg)[6];
  }

  /** A refused frame and the next one, when they block the connection. */
  lemma {:induction false} RefusedThenBlocked(m: Frame, next: Frame, cfg: Config, parts: seq<seq<Byte>>)
    requires Sized(m) && Sized(next) && Parsed(FrameOf(m, cfg)).Nothing?
    requires Blocked(FrameOf(m, cfg) + FrameOf(next, cfg)) && NonEmpty(parts) && Joined(parts) == FrameOf(next, cfg)
    ensures Expected(FrameOf(m, cfg), parts) == []
    ensures Left(FrameOf(m, cfg), parts) == FrameOf(m, cfg) + FrameOf(next, cfg)
  {
    hide FrameOf, Extracted, Expected, Left, Blocked, Parsed, BodyOf, HeaderCorrupt;
    var buf, first, rest := FrameOf(m, cfg), parts[0], parts[1..];
    NonEmptyRest(parts);
    FrameHeader(m, cfg, []);
    FrameHeader(next, cfg, []);
    SameHead(FrameOf(next, cfg), first, Joined(rest));
    BlockedExactly(m, cfg, FrameOf(next, cfg));
    BlockedExactly(m, cfg, first);
    BlockedStays(buf + first, []);
    assert buf + first + [] == buf + first;
    ExpectedRead(buf, first, rest);
    FrameSize(m, cfg);
    FrameSize(next, cfg);
    assert Drained(buf + first) == ([], buf + first) && Kept(buf + first) == buf + first;
    assert parts == [first] + rest;
    BlockedSoFar(buf + first, rest);
    Associates(buf, first, Joined(rest));
    assert [] + Expected(buf + first, rest) == [];
  }

  lemma {:induction false} SameHead(all: seq<Byte>, first: seq<Byte>, rest: seq<Byte>)
    requires all == first + rest && first != []
    ensures all[0] == first[0]
  {
  }

  lemma {:induction false} FrameSize(m: Frame, cfg: Config)
    requires Sized(m)
    ensures MBAP_HEADER_SIZE < |FrameOf(m, cfg)| <= 261
  {
  }

  lemma {:induction false} BlockedSoFar(buf: seq<Byte>, parts: seq<seq<Byte>>)
    requires Blocked(buf) && |buf| + |Joined(parts)| <= MAX_TCP_BUF_BYTES
    ensures Expected(buf, parts) == [] && Left(buf, parts) == buf + Joined(parts) && Blocked(buf + Joined(parts))
    decreases |parts|
  {
    hide Expected, Left, Blocked, Parsed, HeaderCorrupt;
    if parts == [] {
      ExpectedEnd(buf);
      assert buf + [] == buf;
    } else {
      BlockedStays(buf, parts[0]);
      assert parts == [parts[0]] + parts[1..];
      BlockedRead(buf, parts[0], parts[1..]);
      Associates(buf, parts[0], Joined(parts[1..]));
      BlockedSoFar(buf + parts[0], parts[1..]);
    }
  }

  // ── Streams with a harmful read ──────────────────────────────────────────

  /** With the unit in the header alone, the frames dispatched, the bytes left and those dropped do not exceed the input. */
  lemma {:induction false} Accounted(buf: seq<Byte>, parts: seq<seq<Byte>>, mode: LengthMode)
    ensures |Stream(Expected(buf, parts), Config(false, mode))| + |Left(buf, parts)| + Dropped(buf, parts)
         <= |buf| + |Joined(parts)|
    decreases |parts|
  {
    hide Drained, Kept, Expected, Left, Dropped, FrameOf, Stream;
    var cfg := Config(false, mode);
    if parts == [] {
      ExpectedEnd(buf);
      NoFrames(cfg);
    } else {
      var first, rest := parts[0], parts[1..];
      assert parts == [first] + rest;
      ExpectedRead(buf, first, rest);
      DroppedRead(buf, first, rest);
      DrainedSize(buf + first, mode);
      var kept := Kept(Drained(buf + first).1);
      Accounted(kept, rest, mode);
      StreamJoins(Drained(buf + first).0, Expected(kept, rest), cfg);
    }
  }

  lemma {:induction false} NoFrames(cfg: Config)
    ensures Stream([], cfg) == []
  {
  }

  lemma {:induction false} StreamJoins(a: seq<Frame>, b: seq<Frame>, cfg: Config)
    ensures |Stream(a + b, cfg)| == |Stream(a, cfg)| + |Stream(b, cfg)|
  {
    hide FrameOf;
    if a == [] {
      assert a + b == b;
    } else {
      assert (a + b)[1..] == a[1..] + b;
      StreamJoins(a[1..], b, cfg);
    }
  }

  lemma {:induction false} DrainedSize(buf: seq<Byte>, mode: LengthMode)
    ensures |Stream(Drained(buf).0, Config(false, mode))| + |Drained(buf).1| <= |buf|
    decreases |buf|
  {
    hide Parsed, FrameOf, Stream;
    var p, cfg := Parsed(buf), Config(false, mode);
    if p.Nothing? {
      NoFrames(cfg);
    } else {
      ParsedSize(buf);
      DrainedSize(buf[p.consumed..], mode);
      var more := Drained(buf[p.consumed..]).0;
      StreamJoins([p.frame], more, cfg);
      OneFrame(p.frame, cfg);
    }
  }

  lemma {:induction false} OneFrame(m: Frame, cfg: Config)
    ensures |Stream([m], cfg)| == |FrameOf(m, cfg)|
  {
    hide FrameOf;
    assert [m][1..] == [];
  }

  lemma {:induction false} ParsedSize(buf: seq<Byte>)
    ensures Parsed(buf).Found? ==> MBAP_HEADER_SIZE + |Parsed(buf).frame.pdu| <= Parsed(buf).consumed
  {
    hide BeU16, Requests.Decoded, IsKnownFunctionCode;
  }

  // A buffer that stays blocked gives nothing, or is dropped.
  lemma {:induction false} BlockedLoses(buf: seq<Byte>, parts: seq<seq<Byte>>)
    requires Blocked(buf)
    ensures Expected(buf, parts) == [] || Dropped(buf, parts) > 0
    decreases |parts|
  {
    hide Parsed, HeaderCorrupt, Expected, Left, Dropped, Blocked;
    if parts == [] {
      ExpectedEnd(buf);
    } else {
      var first, rest := parts[0], parts[1..];
      assert parts == [first] + rest;
      BlockedStays(buf, first);
      DroppedRead(buf, first, rest);
      ExpectedRead(buf, first, rest);
      assert Drained(buf + first) == ([], buf + first);
      assert [] + Expected(buf + first, rest) == Expected(buf + first, rest);
      if |buf + first| <= MAX_TCP_BUF_BYTES {
        BlockedLoses(buf + first, rest);
      } else {
        NeverEmpty(buf);
      }
    }
  }

  lemma {:induction false} NeverEmpty(buf: seq<Byte>)
    requires Blocked(buf)
    ensures buf != []
  {
    hide Extracted;
  }

  // A standard read that runs past the end of a frame.
  lemma {:induction false} OverrunLoses(ms: seq<Frame>, cfg: Config, pos: nat, first: seq<Byte>, rest: seq<seq<Byte>>)
    requires cfg.lengthMode.Standard? && AllMessages(ms) && ms != []
    requires pos < |FrameOf(ms[0], cfg)| < pos + |first|
    requires pos <= |Stream(ms, cfg)| && first + Joined(rest) == Stream(ms, cfg)[pos..]
    ensures var buf, parts := Stream(ms, cfg)[..pos], [first] + rest;
            Expected(buf, parts) == [] || Left(buf, parts) != [] || Dropped(buf, parts) > 0
  {
    hide Parsed, Expected, Left, Dropped, Blocked, FrameOf, IsMessage, Kept, Drained, Extracted, BodyOf, HeaderCorrupt;
    var frame, tail := FrameOf(ms[0], cfg), Stream(ms[1..], cfg);
    var buf, end := Stream(ms, cfg)[..pos], pos + |first|;
    var all := buf + first;
    assert ms[0] in ms;
    MessageSized(ms[0]);
    var more := tail[..end - |frame|];
    assert all == Stream(ms, cfg)[..end] == frame + more;
    ExpectedRead(buf, first, rest);
    DroppedRead(buf, first, rest);
    BlockedExactly(ms[0], cfg, more);
    if Blocked(all) {
      BlockedStops(all, rest);
      assert [] + Expected(Kept(all), rest) == Expected(Kept(all), rest);
    } else {
      StandardOverreads(ms[0], cfg.unitIdInBody, more);
      assert cfg == Config(cfg.unitIdInBody, cfg.lengthMode);
      ExtractedConsumes(ms[0].tid, ms[0].slave, BodyOf(ms[0], cfg) + [more[0]], |frame| + 1, |frame| + 1);
      FirstDrained(all);
      assert all[Parsed(all).consumed..] == more[1..];
      assert Joined(rest) == Stream(ms, cfg)[pos..][|first|..] == Stream(ms, cfg)[end..];
      DropBeyond(frame, tail, end);
      assert more + Joined(rest) == tail;
      assert more[1..] + Joined(rest) == tail[1..];
      ShiftedStream(ms[1..], cfg);
      CorruptLoses(tail[1..], more[1..], rest);
    }
  }

  lemma {:induction false} ShiftedStream(ms: seq<Frame>, cfg: Config)
    requires cfg.lengthMode.Standard? && AllMessages(ms) && ms != []
    ensures |Stream(ms, cfg)| > MBAP_HEADER_SIZE && HeaderCorrupt(Stream(ms, cfg)[1..])
  {
    hide FrameOf, IsMessage, HeaderCorrupt, Parsed;
    var frame, rest := FrameOf(ms[0], cfg), Stream(ms[1..], cfg);
    assert ms[0] in ms;
    MessageSized(ms[0]);
    FrameSize(ms[0], cfg);
    ShiftedHeader(ms[0], cfg, |frame|);
    assert frame[..|frame|] == frame && (frame + rest)[1..] == frame[1..] + rest;
    SameHeader(frame[1..], rest);
  }

  lemma {:induction false} SameHeader(buf: seq<Byte>, more: seq<Byte>)
    requires |buf| >= MBAP_HEADER_SIZE
    ensures HeaderCorrupt(buf + more) <==> HeaderCorrupt(buf)
  {
  }

  lemma {:induction false} CorruptDrained(buf: seq<Byte>)
    requires HeaderCorrupt(buf)
    ensures Drained(buf) == ([], buf) && Kept(buf) == [] && buf != []
  {
    hide Extracted;
  }

  // Bytes that start with a corrupt header are dropped as soon as it is complete, or wait for it.
  lemma {:induction false} CorruptLoses(all: seq<Byte>, buf: seq<Byte>, parts: seq<seq<Byte>>)
    requires all != [] && (|all| >= MBAP_HEADER_SIZE ==> HeaderCorrupt(all)) && buf + Joined(parts) == all
    ensures var (_, left) := Drained(buf);
            Left(Kept(left), parts) != [] || |left| - |Kept(left)| + Dropped(Kept(left), parts) > 0
    decreases |parts|
  {
    hide Parsed, Expected, Left, Dropped, Drained, Kept, HeaderCorrupt;
    if |buf| >= MBAP_HEADER_SIZE {
      SameHeader(buf, Joined(parts));
      CorruptDrained(buf);
    } else {
      ShortWaits(buf);
      if parts == [] {
        ExpectedEnd(buf);
        assert buf + [] == buf;
      } else {
        var first, rest := parts[0], parts[1..];
        assert parts == [first] + rest;
        ExpectedRead(buf, first, rest);
        DroppedRead(buf, first, rest);
        Associates(buf, first, Joined(rest));
        CorruptLoses(all, buf + first, rest);
      }
    }
  }

  lemma {:induction false} FirstDrained(buf: seq<Byte>)
    requires Parsed(buf).Found?
    ensures Drained(buf) == Prepended(Parsed(buf).frame, Drained(buf[Parsed(buf).consumed..]))
  {
    hide Parsed;
  }

  lemma {:induction false} BlockedStops(buf: seq<Byte>, rest: seq<seq<Byte>>)
    requires Blocked(buf)
    ensures Drained(buf) == ([], buf)
    ensures Expected(Kept(buf), rest) == [] || |buf| - |Kept(buf)| + Dropped(Kept(buf), rest) > 0
  {
    hide Parsed, HeaderCorrupt, Expected, Dropped, Blocked;
    BlockedStays(buf, []);
    assert buf + [] == buf;
    NeverEmpty(buf);
    if |buf| <= MAX_TCP_BUF_BYTES {
      BlockedLoses(buf, rest);
    }
  }

  // A read that stops where a frame is accepted short takes all there is.
  lemma {:induction false} EarlyDrained(ms: seq<Frame>, inBody: bool, end: nat)
    requires AllMessages(ms) && end <= |Stream(ms, Config(inBody, PduOnly))|
    requires !HarmlessStop(ms, Config(inBody, PduOnly), end)
    ensures var cfg := Config(inBody, PduOnly);
            var all, later := Stream(ms, cfg), After(ms, cfg, end);
            && later != [] && AllMessages(later[1..]) && end < |all|
            && all[end..] == [all[end]] + Stream(later[1..], cfg)
            && Drained(all[..end]).1 == []
  {
    hide Parsed, FrameOf, ShortAccepted, IsMessage;
    var cfg := Config(inBody, PduOnly);
    var frame, rest := FrameOf(ms[0], cfg), Stream(ms[1..], cfg);
    assert ms[0] in ms;
    if end >= |frame| {
      var tail := rest[..end - |frame|];
      assert (frame + rest)[..end] == frame + tail && (frame + tail)[|frame|..] == tail;
      EarlyDrained(ms[1..], inBody, end - |frame|);
      PduOnlyFrame(ms[0], inBody, tail);
      DropBeyond(frame, rest, end);
    } else {
      MessageSized(ms[0]);
      CutParsed(ms[0], cfg, end);
      assert (frame + rest)[..end] == frame[..end];
      DrainsToNothing(frame[..end]);
      assert (frame + rest)[end..] == [(frame + rest)[end]] + rest;
    }
  }

  lemma {:induction false} ShortWaits(buf: seq<Byte>)
    requires |buf| < MBAP_HEADER_SIZE
    ensures Drained(buf) == ([], buf) && Kept(buf) == buf
  {
  }

  // A last byte that was left behind is never served: it stays, or is dropped.
  lemma {:induction false} StrayLoses(x: Byte, ms: seq<Frame>, cfg: Config, parts: seq<seq<Byte>>)
    requires AllMessages(ms) && Joined(parts) == [x] + Stream(ms, cfg)
    ensures Kept([]) == [] && (Left([], parts) != [] || Dropped([], parts) > 0)
  {
    hide Parsed, Expected, Left, Dropped, Drained, Kept, HeaderCorrupt, IsMessage, Stream;
    StrayStream(x, ms, cfg);
    ShortWaits([]);
    assert [] + Joined(parts) == Joined(parts);
    CorruptLoses(Joined(parts), [], parts);
  }

  lemma {:induction false} StrayStream(x: Byte, ms: seq<Frame>, cfg: Config)
    requires AllMessages(ms)
    ensures |[x] + Stream(ms, cfg)| >= MBAP_HEADER_SIZE ==> HeaderCorrupt([x] + Stream(ms, cfg))
  {
    hide FrameOf, IsMessage;
    if ms != [] {
      assert ms[0] in ms;
      MessageSized(ms[0]);
      RawHeader(ms[0], cfg);
      var frame, all := FrameOf(ms[0], cfg), [x] + Stream(ms, cfg);
      assert all[4] == frame[3] && all[5] == frame[4];
    }
  }

  /** A run with a harmful read misses a message, makes one up, drops bytes or leaves some behind. */
  lemma {:induction false} HarmfulRun(ms: seq<Frame>, cfg: Config, pos: nat, parts: seq<seq<Byte>>)
    requires AllMessages(ms) && !HarmlessReads(ms, cfg, pos, parts)
    requires pos <= |Stream(ms, cfg)| && Joined(parts) == Stream(ms, cfg)[pos..]
    requires if ms == [] then pos == 0 else pos < |FrameOf(ms[0], cfg)|
    ensures var buf := Stream(ms, cfg)[..pos];
            !(Expected(buf, parts) == ReadAll(ms, cfg) && Left(buf, parts) == [] && Dropped(buf, parts) == 0)
    decreases |parts|
  {
    hide FrameOf, HarmlessRead, HarmlessStop, IsMessage, Expected, Left, Dropped, Drained, Kept, Stream, ReadAll;
    var all := Stream(ms, cfg);
    var first, rest := parts[0], parts[1..];
    var end := pos + |first|;
    assert parts == [first] + rest && all[pos..] == first + Joined(rest);
    if HarmlessRead(ms, cfg, pos, end) {
      HarmlessStep(ms, cfg, pos, first, rest);
      HarmfulRun(After(ms, cfg, end), cfg, Into(ms, cfg, end), rest);
    } else {
      HarmfulRead(ms, cfg, pos, end);
      if cfg.lengthMode.Standard? {
        OverrunLoses(ms, cfg, pos, first, rest);
      } else {
        EarlyLoses(ms, cfg.unitIdInBody, pos, first, rest);
      }
    }
  }

  lemma {:induction false} EarlyLoses(ms: seq<Frame>, inBody: bool, pos: nat, first: seq<Byte>, rest: seq<seq<Byte>>)
    requires AllMessages(ms) && pos <= |Stream(ms, Config(inBody, PduOnly))|
    requires first + Joined(rest) == Stream(ms, Config(inBody, PduOnly))[pos..]
    requires !HarmlessStop(ms, Config(inBody, PduOnly), pos + |first|)
    ensures var buf, parts := Stream(ms, Config(inBody, PduOnly))[..pos], [first] + rest;
            Left(buf, parts) != [] || Dropped(buf, parts) > 0
  {
    hide FrameOf, HarmlessStop, IsMessage, Expected, Left, Dropped, Drained, Kept, Stream;
    var all, end := Stream(ms, Config(inBody, PduOnly)), pos + |first|;
    assert first == all[pos..][..|first|] && Joined(rest) == all[pos..][|first|..] == all[end..];
    assert all[..pos] + first == all[..end];
    ExpectedRead(all[..pos], first, rest);
    DroppedRead(all[..pos], first, rest);
    EarlyDrained(ms, inBody, end);
    StrayLoses(all[end], After(ms, Config(inBody, PduOnly), end)[1..], Config(inBody, PduOnly), rest);
  }

  lemma {:induction false} HarmfulRead(ms: seq<Frame>, cfg: Config, pos: nat, end: nat)
    requires pos <= end && !HarmlessRead(ms, cfg, pos, end) && (ms != [] ==> pos < |FrameOf(ms[0], cfg)|)
    ensures ms != [] && if cfg.lengthMode.Standard? then end > |FrameOf(ms[0], cfg)| else !HarmlessStop(ms, cfg, end)
  {
    hide FrameOf, HarmlessStop;
  }

  /**
   What a stream of frames becomes, exactly: every message is dispatched in order with nothing dropped and nothing left
   behind if and only if all its reads are harmless.  With the unit in the header alone, and unless some message is
   ambiguous, the messages decide it.
   */
  lemma {:induction false} WholeFrameRunExactly(ms: seq<Frame>, cfg: Config, parts: seq<seq<Byte>>)
    requires AllMessages(ms) && Joined(parts) == Stream(ms, cfg)
    ensures HarmlessReads(ms, cfg, 0, parts)
            <==> Expected([], parts) == ReadAll(ms, cfg) && Left([], parts) == [] && Dropped([], parts) == 0
    ensures (forall m :: m in ms ==> !Ambiguous(m, cfg)) ==>
              ReadAll(ms, cfg) == ms
              && (!cfg.unitIdInBody ==> (HarmlessReads(ms, cfg, 0, parts) <==> Expected([], parts) == ms))
  {
    hide FrameOf, HarmlessReads, IsMessage, Ambiguous, Expected, Left, Dropped, Stream, ReadAll;
    var all := Stream(ms, cfg);
    assert all[..0] == [] && all[0..] == all;
    NotEmpty(ms, cfg);
    if forall m :: m in ms ==> !Ambiguous(m, cfg) {
      ReadAsThemselves(ms, cfg);
    }
    if HarmlessReads(ms, cfg, 0, parts) {
      WholeFrameRun(ms, cfg, 0, parts);
    } else {
      HarmfulRun(ms, cfg, 0, parts);
      if !cfg.unitIdInBody {
        Accounted([], parts, cfg.lengthMode);
      }
    }
  }

  /** With the unit in the body they do not: unit 1, asked for 257 coils at 257 and cut short, is asked for just that. */
  lemma {:induction false} ShortForItself(tid: U16, parts: seq<seq<Byte>>)
    requires NonEmpty(parts) && |parts| >= 2 && |parts[|parts| - 1]| == 1
    requires Joined(parts) == FrameOf(Frame(tid, 1, [1, 1, 1, 1, 1]), Config(true, PduOnly))
    ensures var m, cfg := Frame(tid, 1, [1, 1, 1, 1, 1]), Config(true, PduOnly);
            && IsMessage(m) && !Ambiguous(m, cfg) && Stream([m], cfg) == Joined(parts)
            && Expected([], parts) == [m] && Left([], parts) == parts[|parts| - 1]
  {
    hide FrameOf, Expected, Left, Extracted, ShortAccepted, Shortened, BodyOf;
    var m, cfg := Frame(tid, 1, [1, 1, 1, 1, 1]), Config(true, PduOnly);
    Ones(tid);
    InBody(m, PduOnly);
    assert ([1] + m.pdu)[..5] == m.pdu && ([1] + m.pdu)[1..] == m.pdu;
    ShortIs(m, cfg, m.pdu);
    assert [] + Joined(parts) == Joined(parts);
    PiecesCutShort(m, cfg, [], parts);
    assert [m][1..] == [] && FrameOf(m, cfg) + [] == FrameOf(m, cfg);
  }

  lemma {:induction false} Ones(tid: U16)
    ensures IsMessage(Frame(tid, 1, [1, 1, 1, 1, 1])) && !Ambiguous(Frame(tid, 1, [1, 1, 1, 1, 1]), Config(true, PduOnly))
    ensures Extracted(tid, 1, [1, 1, 1, 1, 1], 0) == Found(Frame(tid, 1, [1, 1, 1, 1, 1]), 0)
  {
    assert [1, 1, 1, 1, 1][1..] == [1, 1, 1, 1];
    assert Requests.DecodedPdu([1, 1, 1, 1]).Err?;
    assert Requests.DecodedPdu([1, 1, 1, 1, 1]).Ok?;
  }

  // ── The client side ──────────────────────────────────────────────────────

  /** What the client makes of the bytes that arrived for a request to `slave`. */
  function Received(buf: seq<Byte>, slave: Byte, cfg: Config): Outcome {
    if |buf| < MBAP_HEADER_SIZE then Err(Timeout)
    else if ProtocolOf(buf) != 0 || LengthOf(buf) > MAX_TCP_ADU_SIZE then Err(Protocol)
    else
      var length := LengthOf(buf);
      var end := if |buf| >= MBAP_HEADER_SIZE + length then MBAP_HEADER_SIZE + length else MBAP_PREFIX_SIZE + length;
      if |buf| < end then Err(Timeout)
      else if end <= MBAP_HEADER_SIZE then Err(Protocol)
      else
        var body := buf[MBAP_HEADER_SIZE..end];
        var pdu := if cfg.unitIdInBody && |body| > 1 && body[0] == slave then body[1..] else body;
        match Responses.DecodedPdu(pdu)
        case Ok(rsp) => Ok(rsp)
        case Err(_) => Err(Protocol)
  }

  /** What the client decodes of a reply when its configuration and the server's place the unit differently. */
  function ReplyPdu(rsp: seq<Byte>, server: Config, client: Config): seq<Byte>
    requires |rsp| >= 2
  {
    if server.unitIdInBody && !client.unitIdInBody then rsp
    else if !server.unitIdInBody && client.unitIdInBody && rsp[1] == rsp[0] then rsp[2..]
    else rsp[1..]
  }

  /**
   Client and server are configured apart; the length mode then makes no difference, but the place of the unit does.  A
   client that looks for the unit in the body reads the reply of a server that does not put it there exactly as sent,
   unless its function code equals the unit, when it loses that; the other way round the unit is taken for the code.
   */
  lemma {:induction false} ReceivedAcross(rsp: seq<Byte>, server: Config, client: Config, tid: U16)
    requires 3 <= |rsp| <= 1 + MAX_PDU_SIZE
    ensures Received(EncodedFrame(rsp, server, tid), rsp[0], client)
         == match Responses.DecodedPdu(ReplyPdu(rsp, server, client)) case Ok(r) => Ok(r) case Err(_) => Err(Protocol)
    ensures ReplyPdu(rsp, server, client) == rsp[1..]
            <==> server.unitIdInBody == client.unitIdInBody || (client.unitIdInBody && rsp[1] != rsp[0])
  {
    hide BeU16, BeBytes, TidOf, ProtocolOf, LengthOf, Responses.DecodedPdu, Framed;
    var pdu := rsp[1..];
    var frame, body := EncodedFrame(rsp, server, tid), Body(rsp[0], pdu, server);
    assert frame + [] == frame && body + [] == body;
    HeaderFields(tid, LengthField(|pdu|, server), rsp[0], body, []);
    assert frame[MBAP_HEADER_SIZE..|frame|] == body;
    if server.unitIdInBody {
      assert body == rsp && body[1..] == pdu;
    } else {
      assert body == pdu && body[1..] == rsp[2..];
    }
    assert |rsp[1..]| == |rsp| - 1 && |rsp[2..]| == |rsp| - 2;
  }

  /** The client reads back a reply framed with its own configuration. */
  lemma {:induction false} ReceivedReply(rsp: seq<Byte>, cfg: Config, tid: U16)
    requires 3 <= |rsp| <= 1 + MAX_PDU_SIZE
    ensures Received(EncodedFrame(rsp, cfg, tid), rsp[0], cfg)
         == match Responses.DecodedPdu(rsp[1..]) case Ok(r) => Ok(r) case Err(_) => Err(Protocol)
  {
    hide Received, EncodedFrame;
    ReceivedAcross(rsp, cfg, cfg, tid);
  }
}
