/**
 A client call from end to end: encode and frame the request, deliver it in reads, parse and serve it, encode and frame
 the reply, parse and decode it, over each transport; and the methods of `src/client.rs` on top.
 */
module Client {
  import opened Bits
  import opened Wire
  import opened Pdu
  import opened Errors
  import opened SendRecv
  import opened SerialLine
  import Requests = RequestCodec
  import Responses = ResponseCodec
  import Store = SlaveStore
  import A = Ascii
  import R = Rtu
  import T = Tcp

  /** The size of the buffer every server reads into. */
  const MAX_READ := 256

  /** A transport; `pieces` is how many bytes each read of the server finds, as far as the list goes. */
  datatype Link =
    | RtuLink(pieces: seq<nat>)
    | AsciiLink(pieces: seq<nat>)
    | TcpLink(cfg: T.Config, tid: U16, pieces: seq<nat>)

  // ── Delivery ─────────────────────────────────────────────────────────────

  /** How many of the `waiting` bytes a read takes: at least one, and no more than fit the buffer. */
  function ReadSize(waiting: nat, found: nat): (n: nat)
    requires waiting > 0
    ensures 1 <= n <= waiting && n <= MAX_READ
  {
    var most := if waiting < MAX_READ then waiting else MAX_READ;
    if found == 0 then 1 else if found < most then found else most
  }

  /** The reads in which bytes arrive; behind the end of the list each read finds all that is left. */
  function Reads(bytes: seq<Byte>, sizes: seq<nat>): (parts: seq<seq<Byte>>)
    ensures NonEmpty(parts) && Joined(parts) == bytes && (bytes != [] ==> parts != [])
    decreases |bytes|
  {
    if bytes == [] then []
    else
      var n := ReadSize(|bytes|, if sizes == [] then |bytes| else sizes[0]);
      var rest := Reads(bytes[n..], if sizes == [] then [] else sizes[1..]);
      assert bytes[..n] + bytes[n..] == bytes && ([bytes[..n]] + rest)[1..] == rest;
      [bytes[..n]] + rest
  }

  lemma {:induction false} ReadsAtOnce(bytes: seq<Byte>)
    requires 1 <= |bytes| <= 2 * MAX_READ
    ensures Reads(bytes, []) == if |bytes| <= MAX_READ then [bytes] else [bytes[..MAX_READ], bytes[MAX_READ..]]
  {
    if |bytes| <= MAX_READ {
      assert bytes[..|bytes|] == bytes && bytes[|bytes|..] == [] && [bytes] + [] == [bytes];
    } else {
      var tail := bytes[MAX_READ..];
      assert tail[..|tail|] == tail && tail[|tail|..] == [] && [tail] + [] == [tail];
      assert Reads(tail, []) == [tail];
      assert [bytes[..MAX_READ]] + [tail] == [bytes[..MAX_READ], tail];
    }
  }

  // ── One call over each transport ─────────────────────────────────────────

  // What becomes of the frames a server has found: its new store, and what the client makes of the bytes it wrote.

  function RtuOutcome(st: Store.State, slave: Byte, frames: seq<Frame>): (Store.State, Outcome) {
    var (next, written) := Answers(st, frames, R.Answer);
    (next, R.Received(written, slave))
  }

  function AsciiOutcome(st: Store.State, slave: Byte, frames: seq<Frame>): (Store.State, Outcome) {
    var (next, written) := Answers(st, frames, A.Answer);
    (next, var rsp := A.ParsedResponse(written, slave); if rsp.None? then Err(Timeout) else rsp.value)
  }

  function TcpOutcome(st: Store.State, slave: Byte, frames: seq<T.Frame>, cfg: T.Config): (Store.State, Outcome) {
    var (next, written) := Answers(st, frames, T.Answering(cfg));
    (next, T.Received(written, slave, cfg))
  }

  /** The bytes a client sends for a request it can encode. */
  function DataOf(slave: Byte, req: Request): seq<Byte> {
    [slave] + Requests.EncodedInto(req).appended
  }

  /** The request as a TCP message. */
  function MessageOf(link: Link, slave: Byte, req: Request): T.Frame
    requires link.TcpLink?
  {
    T.Frame(link.tid, slave, Requests.EncodedInto(req).appended)
  }

  /**
   One call: the server's new store, what is left in the buffer of its TCP connection, and the client's result; silence
   ends in a timeout.  Serial lines are silent between calls, so their servers start with an empty buffer.
   */
  function Exchange(link: Link, buf: seq<Byte>, st: Store.State, slave: Byte, req: Request)
    : (Store.State, seq<Byte>, Outcome)
  {
    if link.AsciiLink? && req.Disconnect? then (st, buf, Err(Other))
    else if !Requests.EncodedInto(req).ok then (st, buf, Err(Protocol))
    else
      match link
      case RtuLink(pieces) =>
        var parts := Reads(R.EncodedFrame(DataOf(slave, req)), pieces);
        var (next, outcome) := RtuOutcome(st, slave, R.Expected([], Chunks(parts)));
        (next, [], outcome)
      case AsciiLink(pieces) =>
        var parts := Reads(A.EncodedFrame(DataOf(slave, req)), pieces);
        var (next, outcome) := AsciiOutcome(st, slave, A.Expected([], Chunks(parts)));
        (next, [], outcome)
      case TcpLink(cfg, _, pieces) =>
        var parts := Reads(T.FrameOf(MessageOf(link, slave, req), cfg), pieces);
        var (next, outcome) := TcpOutcome(st, slave, T.Expected(buf, parts), cfg);
        (next, T.Left(buf, parts), outcome)
  }

  /** `call` on a connection with nothing left over from earlier calls. */
  function Call(link: Link, st: Store.State, slave: Byte, req: Request): (Store.State, Outcome) {
    var (next, _, outcome) := Exchange(link, [], st, slave, req);
    (next, outcome)
  }

  // ── The same call on a plain memory ──────────────────────────────────────

  /** What a call means: unencodable requests fail, unanswered ones time out, the others act on the memory. */
  function Remote(mem: Store.Memory, slave: Byte, req: Request): (Store.Memory, Outcome) {
    if !Requests.FitsPdu(req) then (mem, Err(Protocol))
    else if slave == 0 || !Requests.InRange(req) then (mem, Err(Timeout))
    else
      var (next, result) := Store.Meaning(mem, req);
      (next, Ok(Responses.Normal(Reply(req, result))))
  }

  /**
   The requests that a link carries unchanged: over RTU, unless an earlier read already ends in a parseable frame; over
   TCP, unless the parser takes it for another one or it is cut short; over ASCII, all.
   */
  ghost predicate Carries(link: Link, slave: Byte, req: Request) {
    && !req.Disconnect?
    && (Requests.EncodedInto(req).ok ==>
          match link
          case RtuLink(pieces) =>
            R.EarlyBoundariesUnparseable([], Reads(R.EncodedFrame(DataOf(slave, req)), pieces))
          case AsciiLink(_) => true
          case TcpLink(cfg, _, pieces) =>
            var m := MessageOf(link, slave, req);
            !T.Misread(m, cfg) && !T.CutShort(m, cfg, Reads(T.FrameOf(m, cfg), pieces)))
  }

  /** Whether the server's connection is clear after the call: a refused request may stay in its buffer. */
  predicate Settles(link: Link, slave: Byte, req: Request)
    requires !req.Disconnect?
  {
    link.TcpLink? && Requests.EncodedInto(req).ok ==>
      Requests.InRange(req) || (!link.cfg.unitIdInBody && slave != RequestFunction(req))
  }

  /** What a server makes of a PDU, as a client sees it: it serves the request that the PDU decodes to, or is silent. */
  function Answer(st: Store.State, slave: Byte, pdu: seq<Byte>): (Store.State, Outcome) {
    if slave == 0 || Requests.DecodedPdu(pdu).Err? then (st, Err(Timeout))
    else
      var req := Requests.DecodedPdu(pdu).value;
      var (next, result) := Store.Served(st, req);
      (next, Ok(Responses.Normal(Reply(req, result))))
  }

  /** The same, from the bytes: what `Processed` gives, decoded. */
  lemma {:induction false} AnswerOf(st: Store.State, slave: Byte, pdu: seq<Byte>)
    ensures var (next, rsp) := Processed(st, slave, pdu);
            && Answer(st, slave, pdu).0 == next
            && (rsp.None? ==> Answer(st, slave, pdu).1 == Err(Timeout))
            && (rsp.Some? ==> 3 <= |rsp.value| <= 1 + MAX_PDU_SIZE && rsp.value[0] == slave
                              && Responses.DecodedPdu(rsp.value[1..]).Ok?
                              && Answer(st, slave, pdu).1 == Ok(Responses.DecodedPdu(rsp.value[1..]).value))
  {
    hide Store.Served, Requests.Decoded, Responses.EncodedInto, Responses.DecodedPdu, Responses.Normal;
    AnsweredExactly(st, slave, pdu);
  }

  lemma {:induction false} OneAnswer<F>(
      st: Store.State, frame: F, answer: (Store.State, F) -> (Store.State, seq<Byte>))
    ensures Answers(st, [frame], answer) == answer(st, frame)
  {
    OneMoreAnswer(st, [], frame, answer);
    NoAnswers(st, answer);
    assert [] + [frame] == [frame];
    assert [] + answer(st, frame).1 == answer(st, frame).1;
  }

  lemma {:induction false} RtuServed(st: Store.State, slave: Byte, pdu: seq<Byte>)
    ensures RtuOutcome(st, slave, [Frame(slave, pdu)]) == Answer(st, slave, pdu)
  {
    hide Processed, Answer, R.EncodedFrame, R.Received, Responses.DecodedPdu, Answers;
    OneAnswer(st, Frame(slave, pdu), R.Answer);
    AnswerOf(st, slave, pdu);
    var (next, rsp) := Processed(st, slave, pdu);
    if rsp.Some? {
      R.ReceivedReply(rsp.value, slave);
    } else {
      NothingReceived(slave, T.Config(false, T.Standard));
    }
  }

  lemma {:induction false} AsciiServed(st: Store.State, slave: Byte, pdu: seq<Byte>)
    ensures AsciiOutcome(st, slave, [Frame(slave, pdu)]) == Answer(st, slave, pdu)
  {
    hide Processed, Answer, A.EncodedFrame, A.ParsedResponse, Responses.DecodedPdu, Answers;
    OneAnswer(st, Frame(slave, pdu), A.Answer);
    AnswerOf(st, slave, pdu);
    var (next, rsp) := Processed(st, slave, pdu);
    if rsp.Some? {
      A.ReceivedReply(rsp.value, slave);
    } else {
      NothingReceived(slave, T.Config(false, T.Standard));
    }
  }

  /**
   A client and a server that are configured apart: the server serves the message whatever its own configuration, and the
   client reads the reply as the server meant it if both place the unit alike, or if the client looks for it in the body
   and the reply does not start with it.
   */
  lemma {:induction false} ServedAcross(
      st: Store.State, slave: Byte, tid: U16, pdu: seq<Byte>, server: T.Config, client: T.Config)
    ensures var (next, written) := Answers(st, [T.Frame(tid, slave, pdu)], T.Answering(server));
            var rsp := Processed(st, slave, pdu).1;
            && next == Answer(st, slave, pdu).0
            && (rsp.None? ==> T.Received(written, slave, client) == Err(Timeout))
            && (rsp.Some? ==>
                  && |rsp.value| >= 3
                  && T.Received(written, slave, client)
                     == (match Responses.DecodedPdu(T.ReplyPdu(rsp.value, server, client))
                         case Ok(r) => Ok(r)
                         case Err(_) => Err(Protocol))
                  && (server.unitIdInBody == client.unitIdInBody || (client.unitIdInBody && rsp.value[1] != slave) ==>
                        T.Received(written, slave, client) == Answer(st, slave, pdu).1))
  {
    hide Processed, Answer, T.EncodedFrame, T.Received, Responses.DecodedPdu, Answers;
    OneAnswer(st, T.Frame(tid, slave, pdu), T.Answering(server));
    AnswerOf(st, slave, pdu);
    var (next, rsp) := Processed(st, slave, pdu);
    if rsp.Some? {
      T.ReceivedAcross(rsp.value, server, client, tid);
    } else {
      NothingReceived(slave, client);
    }
  }

  lemma {:induction false} TcpServed(st: Store.State, slave: Byte, tid: U16, pdu: seq<Byte>, cfg: T.Config)
    ensures TcpOutcome(st, slave, [T.Frame(tid, slave, pdu)], cfg) == Answer(st, slave, pdu)
  {
    hide Processed, Answer, T.Received, Responses.DecodedPdu, Answers, T.Answering;
    ServedAcross(st, slave, tid, pdu, cfg, cfg);
    AnswerOf(st, slave, pdu);
  }

  lemma {:induction false} NothingReceived(slave: Byte, cfg: T.Config)
    ensures R.Received([], slave) == T.Received([], slave, cfg) == Err(Timeout)
    ensures A.ParsedResponse([], slave) == None
  {
  }

  lemma {:induction false} RtuCallIs(st: Store.State, slave: Byte, pdu: seq<Byte>, parts: seq<seq<Byte>>)
    requires |pdu| >= 2 && IsKnownFunctionCode(pdu[0]) && Joined(parts) == R.EncodedFrame([slave] + pdu)
    requires R.EarlyBoundariesUnparseable([], parts)
    ensures RtuOutcome(st, slave, R.Expected([], Chunks(parts))) == Answer(st, slave, pdu)
  {
    hide RtuOutcome, R.EncodedFrame, R.Expected, IsKnownFunctionCode, R.EarlyBoundariesUnparseable;
    var data := [slave] + pdu;
    assert data[1..] == pdu && data[1] == pdu[0];
    R.FrameServed(parts, data);
    RtuServed(st, slave, pdu);
  }

  lemma {:induction false} AsciiCallIs(st: Store.State, slave: Byte, pdu: seq<Byte>, parts: seq<seq<Byte>>)
    requires pdu != [] && Joined(parts) == A.EncodedFrame([slave] + pdu)
    ensures AsciiOutcome(st, slave, A.Expected([], Chunks(parts))) == Answer(st, slave, pdu)
  {
    hide AsciiOutcome, A.EncodedFrame, A.Expected;
    var data := [slave] + pdu;
    assert data[1..] == pdu;
    A.PiecesServed(parts, data);
    AsciiServed(st, slave, pdu);
  }

  /** Over TCP, for any PDU that is not cut short: as the message it is read as, or not at all. */
  lemma {:induction false} TcpCallIs(st: Store.State, m: T.Frame, cfg: T.Config, parts: seq<seq<Byte>>)
    requires T.Sized(m) && NonEmpty(parts) && Joined(parts) == T.FrameOf(m, cfg) && !T.CutShort(m, cfg, parts)
    ensures var p := T.Parsed(T.FrameOf(m, cfg));
            var (next, outcome) := TcpOutcome(st, m.slave, T.Expected([], parts), cfg);
            && (p.Nothing? ==> next == st && outcome == Err(Timeout) && T.Left([], parts) == T.FrameOf(m, cfg))
            && (p.Found? && p.frame.slave == m.slave ==>
                  (next, outcome) == Answer(st, m.slave, p.frame.pdu) && T.Left([], parts) == [])
  {
    hide T.Parsed, T.FrameOf, T.Expected, T.Left, T.CutShort, TcpOutcome, Answer;
    T.WholePieces(m, cfg, parts);
    var p := T.Parsed(T.FrameOf(m, cfg));
    if p.Found? && p.frame.slave == m.slave {
      TcpServed(st, m.slave, p.frame.tid, p.frame.pdu, cfg);
    } else if p.Nothing? {
      NoFrames(st, m.slave, cfg);
    }
  }

  lemma {:induction false} NoFrames(st: Store.State, slave: Byte, cfg: T.Config)
    ensures TcpOutcome(st, slave, [], cfg) == (st, Err(Timeout))
  {
    hide Answers, T.Received;
    NoAnswers(st, T.Answering(cfg));
    NothingReceived(slave, cfg);
  }

  // A request over TCP that is neither misread nor cut short.
  lemma {:induction false} TcpCarried(st: Store.State, m: T.Frame, cfg: T.Config, parts: seq<seq<Byte>>)
    requires T.Sized(m) && NonEmpty(parts) && Joined(parts) == T.FrameOf(m, cfg)
    requires !T.CutShort(m, cfg, parts) && !T.Misread(m, cfg)
    ensures TcpOutcome(st, m.slave, T.Expected([], parts), cfg) == Answer(st, m.slave, m.pdu)
    ensures T.Left([], parts) == []
            <==> Requests.DecodedPdu(m.pdu).Ok? || T.HandedOn(m, cfg)
  {
    hide T.Parsed, T.FrameOf, T.Expected, T.Left, T.CutShort, TcpOutcome, Requests.Decoded, T.Ambiguous, T.HandedOn,
      Store.Served;
    TcpCallIs(st, m, cfg, parts);
    if Requests.DecodedPdu(m.pdu).Ok? {
      T.LoneFrame(m, cfg);
    } else {
      T.RefusedFrame(m, cfg);
    }
  }

  /**
   End to end: over every transport, however the request is cut into reads, the client gets the result the plain memory
   gives, and the server's vectors go on holding that memory; a TCP connection is clear afterwards exactly when the
   request settles.
   */
  lemma {:induction false} CallRefines(link: Link, st: Store.State, mem: Store.Memory, slave: Byte, req: Request)
    requires Store.Holds(st, mem) && Carries(link, slave, req)
    ensures var (next, left, outcome) := Exchange(link, [], st, slave, req);
            && Store.Holds(next, Remote(mem, slave, req).0)
            && outcome == Remote(mem, slave, req).1
            && (left == [] <==> Settles(link, slave, req))
  {
    hide Store.Holds, Store.Served, Store.Meaning, RtuOutcome, AsciiOutcome, TcpOutcome, Requests.Decoded,
      Requests.EncodedInto, Requests.InRange, Requests.FitsPdu, Responses.Normal, R.EncodedFrame, A.EncodedFrame,
      T.FrameOf, R.Expected, A.Expected, T.Expected, T.Left, T.CutShort, T.Misread, R.EarlyBoundariesUnparseable, Reads,
      IsKnownFunctionCode;
    Requests.EncoderLimits(req);
    var e := Requests.EncodedInto(req);
    if e.ok {
      var pdu := e.appended;
      Requests.RequestRoundTrip(req, []);
      assert pdu + [] == pdu;
      FirstByte(req);
      match link {
        case RtuLink(pieces) => RtuCallIs(st, slave, pdu, Reads(R.EncodedFrame(DataOf(slave, req)), pieces));
        case AsciiLink(pieces) => AsciiCallIs(st, slave, pdu, Reads(A.EncodedFrame(DataOf(slave, req)), pieces));
        case TcpLink(cfg, _, pieces) =>
          var m := MessageOf(link, slave, req);
          TcpCarried(st, m, cfg, Reads(T.FrameOf(m, cfg), pieces));
      }
      assert Exchange(link, [], st, slave, req).0 == Answer(st, slave, pdu).0;
      assert Exchange(link, [], st, slave, req).2 == Answer(st, slave, pdu).1;
      Store.ServedRefines(st, mem, req);
    }
  }

  lemma {:induction false} FirstByte(req: Request)
    requires Requests.EncodedInto(req).ok && !req.Disconnect?
    ensures 5 <= |Requests.EncodedInto(req).appended| <= MAX_PDU_SIZE
    ensures Requests.EncodedInto(req).appended[0] == RequestFunction(req) && IsKnownFunctionCode(RequestFunction(req))
  {
    hide Requests.Prefix, Requests.Payload;
    Requests.EncoderLimits(req);
  }

  // ── Conversations ────────────────────────────────────────────────────────

  /** One call of a conversation in which any number of clients take turns, each TCP client on a connection of its own. */
  datatype Turn = Turn(link: Link, connection: nat, slave: Byte, req: Request)

  function Outcomes(st: Store.State, bufs: nat -> seq<Byte>, turns: seq<Turn>): seq<Outcome>
    decreases |turns|
  {
    if turns == [] then []
    else
      var t := turns[0];
      var (next, left, outcome) := Exchange(t.link, bufs(t.connection), st, t.slave, t.req);
      [outcome] + Outcomes(next, c => if c == t.connection then left else bufs(c), turns[1..])
  }

  function RemoteOutcomes(mem: Store.Memory, turns: seq<Turn>): seq<Outcome>
    decreases |turns|
  {
    if turns == [] then []
    else
      var (next, outcome) := Remote(mem, turns[0].slave, turns[0].req);
      [outcome] + RemoteOutcomes(next, turns[1..])
  }

  /** Any conversation, whatever mix of transports: the clients cannot tell the server from the plain memory. */
  lemma {:induction false} ConversationRefines(
      st: Store.State, bufs: nat -> seq<Byte>, mem: Store.Memory, turns: seq<Turn>)
    requires Store.Holds(st, mem) && forall c: nat :: bufs(c) == []
    requires forall t :: t in turns ==> Carries(t.link, t.slave, t.req) && Settles(t.link, t.slave, t.req)
    ensures Outcomes(st, bufs, turns) == RemoteOutcomes(mem, turns)
    decreases |turns|
  {
    hide Store.Holds, Exchange, Remote, Carries, Settles;
    if turns != [] {
      var t := turns[0];
      assert t in turns;
      CallRefines(t.link, st, mem, t.slave, t.req);
      var (next, left, outcome) := Exchange(t.link, bufs(t.connection), st, t.slave, t.req);
      ConversationRefines(
        next, c => if c == t.connection then left else bufs(c), Remote(mem, t.slave, t.req).0, turns[1..]);
    }
  }

  // ── What is not carried ──────────────────────────────────────────────────

  /** Over TCP a misread request that is not cut short acts, exactly, as the request it is taken for. */
  lemma {:induction false} MisreadCall(link: Link, st: Store.State, slave: Byte, req: Request)
    requires link.TcpLink? && !req.Disconnect? && Requests.EncodedInto(req).ok
    requires T.Misread(MessageOf(link, slave, req), link.cfg)
    requires !T.CutShort(MessageOf(link, slave, req), link.cfg,
                         Reads(T.FrameOf(MessageOf(link, slave, req), link.cfg), link.pieces))
    ensures var taken := T.Mistaken(MessageOf(link, slave, req), link.cfg);
            Requests.DecodedPdu(taken).Ok? && Call(link, st, slave, req) == Answer(st, slave, taken)
  {
    hide Answer, T.Parsed, T.FrameOf, T.Expected, T.Left, T.CutShort, T.Misread, T.Mistaken, TcpOutcome,
      Requests.Decoded, Requests.EncodedInto, Reads, IsKnownFunctionCode;
    FirstByte(req);
    var m := MessageOf(link, slave, req);
    T.MisreadFrame(m, link.cfg);
    TcpCallIs(st, m, link.cfg, Reads(T.FrameOf(m, link.cfg), link.pieces));
  }

  /**
   A request that is cut short acts, exactly, as what its shortened form is taken for, and its last byte stays in the
   server's buffer.
   */
  lemma {:induction false} CutShortCall(link: Link, st: Store.State, slave: Byte, req: Request)
    requires link.TcpLink? && !req.Disconnect? && Requests.EncodedInto(req).ok
    requires T.CutShort(MessageOf(link, slave, req), link.cfg,
                        Reads(T.FrameOf(MessageOf(link, slave, req), link.cfg), link.pieces))
    ensures var short := T.Shortened(MessageOf(link, slave, req), link.cfg);
            && short.slave == slave
            && Call(link, st, slave, req) == Answer(st, slave, short.pdu)
            && |Exchange(link, [], st, slave, req).1| == 1
  {
    hide T.FrameOf, T.Expected, T.Left, T.Shortened, T.ShortAccepted, TcpOutcome, Requests.EncodedInto, Reads,
      IsKnownFunctionCode, Answer;
    FirstByte(req);
    var m := MessageOf(link, slave, req);
    var parts := Reads(T.FrameOf(m, link.cfg), link.pieces);
    JoinedOne(parts);
    assert [] + Joined(parts) == Joined(parts);
    T.PiecesCutShort(m, link.cfg, [], parts);
    T.ShortenedFrom(m, link.cfg);
    TcpServed(st, slave, link.tid, T.Shortened(m, link.cfg).pdu, link.cfg);
  }

  /**
   So with the unit in the header alone, and unless that equals the function code, any request of this length mode that
   is cut one byte before its end is lost: the call times out, the store is unchanged, and the byte stays behind.
   */
  lemma {:induction false} CutShortLost(link: Link, st: Store.State, slave: Byte, req: Request)
    requires link.TcpLink? && link.cfg == T.Config(false, T.PduOnly)
    requires slave != RequestFunction(req) && Requests.EncodedInto(req).ok && Requests.InRange(req)
    ensures T.ShortAccepted(MessageOf(link, slave, req), link.cfg)
    ensures T.CutShort(MessageOf(link, slave, req), link.cfg,
                       Reads(T.FrameOf(MessageOf(link, slave, req), link.cfg), link.pieces)) ==>
              Call(link, st, slave, req) == (st, Err(Timeout)) && |Exchange(link, [], st, slave, req).1| == 1
  {
    hide T.FrameOf, T.Expected, T.Left, TcpOutcome, Requests.EncodedInto, Requests.InRange, Reads, Requests.Decoded,
      IsKnownFunctionCode, T.CutShort, Exchange;
    Requests.NotDisconnect(req);
    FirstByte(req);
    var m := MessageOf(link, slave, req);
    T.PlainShortened(m);
    Requests.TruncatedRefused(req, |m.pdu| - 1);
    if T.CutShort(m, link.cfg, Reads(T.FrameOf(m, link.cfg), link.pieces)) {
      CutShortCall(link, st, slave, req);
    }
  }

  /** Servers read at most 256 bytes at a time: a frame that arrives all at once is cut short when it has 257. */
  lemma {:induction false} CutByTheBuffer(m: T.Frame, cfg: T.Config)
    requires T.Sized(m)
    ensures T.CutShort(m, cfg, Reads(T.FrameOf(m, cfg), [])) <==> |T.FrameOf(m, cfg)| == MAX_READ + 1 && T.ShortAccepted(m, cfg)
  {
    hide T.ShortAccepted, T.EncodedFrame, Reads;
    ReadsAtOnce(T.FrameOf(m, cfg));
  }

  /** For example, a batch write of 122 registers to any unit but 16. */
  lemma {:induction false} Write122Lost(link: Link, st: Store.State, slave: Byte, addr: U16, words: seq<U16>)
    requires link.TcpLink? && link.cfg == T.Config(false, T.PduOnly) && link.pieces == []
    requires slave != 16 && |words| == 122 && Requests.RangeOk(addr, 122, MAX_REGISTERS)
    ensures WriteMultipleRegisters(link, st, slave, addr, words) == (st, Err(Timeout))
  {
    hide T.FrameOf, Exchange, Requests.Encoded, T.ShortAccepted, Reads;
    var req := Request.WriteMultipleRegisters(addr, words);
    Requests.EncoderLimits(req);
    CutShortLost(link, st, slave, req);
    CutByTheBuffer(MessageOf(link, slave, req), link.cfg);
  }

  /** Requests that arrive all at once are carried: always over RTU and ASCII, and over TCP but for the exceptions. */
  lemma {:induction false} ArrivingAtOnce(link: Link, slave: Byte, req: Request)
    requires !req.Disconnect? && Requests.EncodedInto(req).ok && link.pieces == []
    ensures Carries(link, slave, req)
            <==> (link.TcpLink? ==>
                    var m := MessageOf(link, slave, req);
                    !T.Misread(m, link.cfg)
                    && !(|T.FrameOf(m, link.cfg)| == MAX_READ + 1 && T.ShortAccepted(m, link.cfg)))
    ensures Requests.InRange(req) && RequestFunction(req) in {1, 2, 3, 4, 5, 6, 8} ==> Carries(link, slave, req)
  {
    hide T.ShortAccepted, T.EncodedFrame, Reads, T.Ambiguous, Requests.EncodedInto, T.CutShort, R.Parsed, IsKnownFunctionCode;
    FirstByte(req);
    Requests.EncoderLimits(req);
    if link.RtuLink? {
      ReadsAtOnce(R.EncodedFrame(DataOf(slave, req)));
    } else if link.TcpLink? {
      CutByTheBuffer(MessageOf(link, slave, req), link.cfg);
      if Requests.InRange(req) && RequestFunction(req) in {1, 2, 3, 4, 5, 6, 8} {
        T.ShortRequestsUnambiguous(req, link.tid, slave, link.cfg);
      }
    }
  }

  /** However the frames are cut, ASCII carries every request, and standard TCP framing every one that is not misread. */
  lemma {:induction false} ArrivingInPieces(link: Link, slave: Byte, req: Request)
    requires !req.Disconnect? && Requests.EncodedInto(req).ok
    ensures link.AsciiLink? ==> Carries(link, slave, req)
    ensures link.TcpLink? && link.cfg.lengthMode.Standard? ==>
              (Carries(link, slave, req) <==> !T.Misread(MessageOf(link, slave, req), link.cfg))
              && (Requests.InRange(req) && RequestFunction(req) in {1, 2, 3, 4, 5, 6, 8} ==> Carries(link, slave, req))
  {
    hide T.ShortAccepted, T.FrameOf, Reads, T.Ambiguous, Requests.EncodedInto;
    if link.TcpLink? {
      T.StandardNeverShort(MessageOf(link, slave, req), link.cfg);
      if Requests.InRange(req) && RequestFunction(req) in {1, 2, 3, 4, 5, 6, 8} {
        T.ShortRequestsUnambiguous(req, link.tid, slave, link.cfg);
      }
    }
  }

  // ── Calls on a connection that is not clear ──────────────────────────────

  /** The read that brings a frame, and what a second one brings of it, when it arrives at once. */
  lemma {:induction false} FirstRead(m: T.Frame, cfg: T.Config)
    requires T.Sized(m)
    ensures var frame := T.FrameOf(m, cfg);
            && T.MBAP_HEADER_SIZE < |frame|
            && (|frame| <= MAX_READ ==> Reads(frame, []) == [frame[..|frame|]] + [])
            && (|frame| > MAX_READ ==>
                  Reads(frame, []) == [frame[..MAX_READ]] + [frame[MAX_READ..]]
                  && T.Expected([], [frame[MAX_READ..]]) == [] && T.Left([], [frame[MAX_READ..]]) == frame[MAX_READ..])
  {
    hide T.FrameOf, Reads, T.Expected, T.Left;
    var frame := T.FrameOf(m, cfg);
    T.FrameSize(m, cfg);
    ReadsAtOnce(frame);
    if |frame| > MAX_READ {
      T.Scrap(frame[MAX_READ..]);
    } else {
      assert frame[..|frame|] == frame;
    }
  }

  /** What a frame that arrives at once leaves behind when the server drops the read that brings its header. */
  function Tail(m: T.Frame, cfg: T.Config): seq<Byte> {
    var frame := T.FrameOf(m, cfg);
    if |frame| <= MAX_READ then [] else frame[MAX_READ..]
  }

  /**
   After a call that was cut short: the next request that arrives at once, whatever it is, is lost, and the connection is
   clear again, but for what a second read brings.
   */
  lemma {:induction false} AfterCutShort(link: Link, buf: seq<Byte>, st: Store.State, slave: Byte, req: Request)
    requires link.TcpLink? && link.pieces == [] && !req.Disconnect? && Requests.EncodedInto(req).ok && |buf| == 1
    ensures Exchange(link, buf, st, slave, req) == (st, Tail(MessageOf(link, slave, req), link.cfg), Err(Timeout))
  {
    hide T.FrameOf, T.Expected, T.Left, TcpOutcome, Requests.EncodedInto, Reads, IsKnownFunctionCode;
    FirstByte(req);
    var m, cfg := MessageOf(link, slave, req), link.cfg;
    var frame := T.FrameOf(m, cfg);
    FirstRead(m, cfg);
    assert buf == [buf[0]];
    if |frame| <= MAX_READ {
      T.AfterStrayByte(buf[0], m, cfg, |frame|, []);
      T.ExpectedEnd([]);
    } else {
      T.AfterStrayByte(buf[0], m, cfg, MAX_READ, [frame[MAX_READ..]]);
    }
    NoFrames(st, slave, cfg);
  }

  /** A call that is carried and does not settle leaves its frame in the buffer, refused. */
  lemma {:induction false} Unsettled(link: Link, st: Store.State, slave: Byte, req: Request)
    requires link.TcpLink? && Carries(link, slave, req) && !Settles(link, slave, req)
    ensures var m := MessageOf(link, slave, req);
            && T.Sized(m) && T.Parsed(T.FrameOf(m, link.cfg)).Nothing?
            && Exchange(link, [], st, slave, req) == (st, T.FrameOf(m, link.cfg), Err(Timeout))
  {
    hide T.FrameOf, T.Expected, T.Left, T.CutShort, T.Misread, TcpOutcome, Requests.EncodedInto, Requests.InRange,
      Requests.Decoded, Reads, IsKnownFunctionCode;
    FirstByte(req);
    var m := MessageOf(link, slave, req);
    Requests.RequestRoundTrip(req, []);
    assert m.pdu + [] == m.pdu;
    T.RefusedFrame(m, link.cfg);
    TcpCallIs(st, m, link.cfg, Reads(T.FrameOf(m, link.cfg), link.pieces));
  }

  /** The request made of a refused frame and the byte behind it. */
  function Joint(m: T.Frame, cfg: T.Config, next: seq<Byte>): T.Parse
    requires next != []
  {
    T.Extracted(m.tid, m.slave, T.BodyOf(m, cfg) + [next[0]], 0)
  }

  /**
   After a call whose frame was refused: either the connection is blocked, and the next call, however it arrives, times
   out and changes nothing; or a request that nobody sent, made of the refused frame and the first byte of the next one,
   is served in the place of the next request, and its reply is taken for the reply to that.
   */
  lemma {:induction false} AfterRefusal(link: Link, m: T.Frame, st: Store.State, slave: Byte, req: Request)
    requires link.TcpLink? && !req.Disconnect? && Requests.EncodedInto(req).ok
    requires T.Sized(m) && T.Parsed(T.FrameOf(m, link.cfg)).Nothing?
    ensures var buf, frame := T.FrameOf(m, link.cfg), T.FrameOf(MessageOf(link, slave, req), link.cfg);
            var (next, left, outcome) := Exchange(link, buf, st, slave, req);
            && (T.Blocked(buf + frame) ==> (next, left, outcome) == (st, buf + frame, Err(Timeout)))
            && (!T.Blocked(buf + frame) && link.pieces == [] ==>
                  && Joint(m, link.cfg, frame).Found?
                  && next == Answer(st, m.slave, Joint(m, link.cfg, frame).frame.pdu).0
                  && (m.slave == slave ==> outcome == Answer(st, slave, Joint(m, link.cfg, frame).frame.pdu).1)
                  && left == Tail(MessageOf(link, slave, req), link.cfg))
  {
    hide T.FrameOf, T.Expected, T.Left, TcpOutcome, T.Blocked, T.Parsed, T.Extracted, T.BodyOf, Requests.EncodedInto,
      Reads, IsKnownFunctionCode, Answer;
    FirstByte(req);
    var last, cfg := MessageOf(link, slave, req), link.cfg;
    var buf, frame := T.FrameOf(m, cfg), T.FrameOf(last, cfg);
    T.FrameSize(last, cfg);
    if T.Blocked(buf + frame) {
      T.RefusedThenBlocked(m, last, cfg, Reads(frame, link.pieces));
      NoFrames(st, slave, cfg);
    } else if link.pieces == [] {
      T.RefusedGoesOn(m, cfg, frame);
      FirstRead(last, cfg);
      if |frame| <= MAX_READ {
        T.AfterRefusedFrame(m, last, cfg, |frame|, []);
        T.ExpectedEnd([]);
      } else {
        T.AfterRefusedFrame(m, last, cfg, MAX_READ, [frame[MAX_READ..]]);
      }
      JointServed(st, m, cfg, frame, slave);
    }
  }

  lemma {:induction false} JointServed(st: Store.State, m: T.Frame, cfg: T.Config, next: seq<Byte>, slave: Byte)
    requires next != [] && Joint(m, cfg, next).Found?
    ensures var p := Joint(m, cfg, next);
            && TcpOutcome(st, slave, [p.frame] + [], cfg).0 == Answer(st, m.slave, p.frame.pdu).0
            && (m.slave == slave ==> TcpOutcome(st, slave, [p.frame] + [], cfg) == Answer(st, slave, p.frame.pdu))
  {
    hide T.BodyOf, Requests.Decoded, IsKnownFunctionCode, Answer, Answers, T.Received;
    var p := Joint(m, cfg, next);
    TcpServed(st, m.slave, p.frame.tid, p.frame.pdu, cfg);
    assert [p.frame] + [] == [p.frame];
  }

  function Sent(link: Link, slave: Byte, req: Request): nat
    requires link.TcpLink?
  {
    if Requests.EncodedInto(req).ok then |T.FrameOf(MessageOf(link, slave, req), link.cfg)| else 0
  }

  /** While the connection is blocked and its buffer has room, a call times out, changes nothing, and blocks it further. */
  lemma {:induction false} WhileBlocked(link: Link, buf: seq<Byte>, st: Store.State, slave: Byte, req: Request)
    requires link.TcpLink? && !req.Disconnect? && T.Blocked(buf)
    requires |buf| + Sent(link, slave, req) <= T.MAX_TCP_BUF_BYTES
    ensures var (next, left, outcome) := Exchange(link, buf, st, slave, req);
            && next == st && outcome == Err(if Requests.FitsPdu(req) then Timeout else Protocol)
            && T.Blocked(left) && |left| == |buf| + Sent(link, slave, req)
  {
    hide T.FrameOf, T.Expected, T.Left, TcpOutcome, T.Blocked, Requests.EncodedInto, Reads;
    Requests.EncoderLimits(req);
    if Requests.EncodedInto(req).ok {
      T.BlockedSoFar(buf, Reads(T.FrameOf(MessageOf(link, slave, req), link.cfg), link.pieces));
      NoFrames(st, slave, link.cfg);
    }
  }

  /** The request that takes the buffer over its cap is lost as well, and the connection is clear again. */
  lemma {:induction false} CapReached(link: Link, buf: seq<Byte>, st: Store.State, slave: Byte, req: Request)
    requires link.TcpLink? && link.pieces == [] && !req.Disconnect? && Requests.EncodedInto(req).ok && T.Blocked(buf)
    requires |T.FrameOf(MessageOf(link, slave, req), link.cfg)| <= MAX_READ
    requires |buf| <= T.MAX_TCP_BUF_BYTES < |buf| + |T.FrameOf(MessageOf(link, slave, req), link.cfg)|
    ensures Exchange(link, buf, st, slave, req) == (st, [], Err(Timeout))
  {
    hide T.FrameOf, T.Expected, T.Left, TcpOutcome, T.Blocked, Requests.EncodedInto, Reads, IsKnownFunctionCode;
    FirstByte(req);
    var frame := T.FrameOf(MessageOf(link, slave, req), link.cfg);
    ReadsAtOnce(frame);
    assert [frame] == [frame] + [];
    T.BlockedRead(buf, frame, []);
    T.ExpectedEnd([]);
    NoFrames(st, slave, link.cfg);
  }

  /** How many bytes the calls of a conversation send on one connection. */
  function Arriving(turns: seq<Turn>, connection: nat): nat {
    if turns == [] then 0
    else
      var t := turns[0];
      (if t.connection == connection && t.link.TcpLink? then Sent(t.link, t.slave, t.req) else 0)
      + Arriving(turns[1..], connection)
  }

  /** A conversation with the plain memory in which nothing on one connection is answered. */
  function RemoteOutcomesBut(mem: Store.Memory, turns: seq<Turn>, silent: nat): seq<Outcome>
    decreases |turns|
  {
    if turns == [] then []
    else if turns[0].connection == silent then
      [Err(if Requests.FitsPdu(turns[0].req) then Timeout else Protocol)] + RemoteOutcomesBut(mem, turns[1..], silent)
    else
      var (next, outcome) := Remote(mem, turns[0].slave, turns[0].req);
      [outcome] + RemoteOutcomesBut(next, turns[1..], silent)
  }

  /**
   A conversation in which one connection is blocked: until its buffer exceeds the cap, every call on it times out and
   none touches the memory, and the clients of the other connections still cannot tell the server from the plain memory.
   */
  lemma {:induction false} BlockedConversation(
      st: Store.State, bufs: nat -> seq<Byte>, mem: Store.Memory, turns: seq<Turn>, blocked: nat)
    requires Store.Holds(st, mem) && T.Blocked(bufs(blocked)) && forall c: nat :: c != blocked ==> bufs(c) == []
    requires |bufs(blocked)| + Arriving(turns, blocked) <= T.MAX_TCP_BUF_BYTES
    requires forall t :: t in turns ==>
               if t.connection == blocked then t.link.TcpLink? && !t.req.Disconnect?
               else Carries(t.link, t.slave, t.req) && Settles(t.link, t.slave, t.req)
    ensures Outcomes(st, bufs, turns) == RemoteOutcomesBut(mem, turns, blocked)
    decreases |turns|
  {
    hide Store.Holds, Exchange, Remote, Carries, Settles, T.Blocked, T.FrameOf, Requests.EncodedInto, Requests.FitsPdu;
    if turns != [] {
      var t := turns[0];
      assert t in turns;
      var (next, left, outcome) := Exchange(t.link, bufs(t.connection), st, t.slave, t.req);
      var later: nat -> seq<Byte> := c => if c == t.connection then left else bufs(c);
      if t.connection == blocked {
        WhileBlocked(t.link, bufs(blocked), st, t.slave, t.req);
        BlockedConversation(next, later, mem, turns[1..], blocked);
      } else {
        CallRefines(t.link, st, mem, t.slave, t.req);
        BlockedConversation(next, later, Remote(mem, t.slave, t.req).0, turns[1..], blocked);
      }
    }
  }

  /**
   A write that nobody asked for: a gateway client reads 65535 coils from unit 22, which times out; whatever is called
   next on that connection, to whatever unit, a holding register of unit 22 is masked.
   */
  lemma {:induction false} PhantomWrite(
      link: Link, later: Link, st: Store.State, mem: Store.Memory, addr: U16, slave: Byte, req: Request)
    requires link.TcpLink? && link.cfg == T.Config(true, T.Standard)
    requires later.TcpLink? && later.cfg == link.cfg && later.pieces == []
    requires Store.Holds(st, mem) && !req.Disconnect? && Requests.EncodedInto(req).ok
    ensures var (next, left, outcome) := Exchange(link, [], st, 22, Request.ReadCoils(addr, 65535));
            var last := Exchange(later, left, next, slave, req).0;
            var hi, lo, first := BeBytes(addr)[0], BeBytes(addr)[1], BeBytes(later.tid)[0];
            && outcome == Err(Timeout) && next == st
            && Store.Holds(
                 last,
                 Store.Meaning(
                   mem, Request.MaskWriteRegister(BeU16(1, hi), BeU16(lo, 0xFF), BeU16(0xFF, first))).0)
  {
    hide T.FrameOf, Exchange, T.Blocked, T.Parsed, T.Misread, T.ShortAccepted, T.Extracted, T.BodyOf, Requests.EncodedInto,
      Requests.Decoded, Reads, BeBytes, Store.Holds, Store.Served, Store.Meaning, Answer, IsKnownFunctionCode;
    var ask := Request.ReadCoils(addr, 65535);
    var m, cfg := MessageOf(link, 22, ask), link.cfg;
    T.PairOfWord(addr);
    T.PairOfWord(later.tid);
    var hi, lo, first := BeBytes(addr)[0], BeBytes(addr)[1], BeBytes(later.tid)[0];
    var frame := T.FrameOf(MessageOf(later, slave, req), cfg);
    FirstByte(req);
    LargestRead(addr);
    FirstOfFrame(MessageOf(later, slave, req), cfg);
    T.StrayWrite(link.tid, hi, lo, first, frame[1..]);
    assert [first] + frame[1..] == frame;
    T.StandardNeverShort(m, cfg);
    assert m == T.Frame(link.tid, 22, [1, hi, lo, 0xFF, 0xFF]);
    Unsettled(link, st, 22, ask);
    AfterRefusal(later, m, st, slave, req);
    T.RefusedGoesOn(m, cfg, frame);
    T.BlockedExactly(m, cfg, frame);
    var write := Request.MaskWriteRegister(BeU16(1, hi), BeU16(lo, 0xFF), BeU16(0xFF, first));
    Serves(st, 22, [22, 1, hi, lo, 0xFF, 0xFF, first], write);
    Store.ServedRefines(st, mem, write);
  }

  lemma {:induction false} LargestRead(addr: U16)
    ensures var ask, bytes := Request.ReadCoils(addr, 65535), BeBytes(addr);
            && Requests.EncodedInto(ask).ok && !Requests.InRange(ask)
            && Requests.EncodedInto(ask).appended == [1, bytes[0], bytes[1], 0xFF, 0xFF]
  {
  }

  lemma {:induction false} FirstOfFrame(m: T.Frame, cfg: T.Config)
    ensures T.FrameOf(m, cfg)[0] == BeBytes(m.tid)[0]
  {
    hide BeBytes;
    T.FrameIs(m, cfg);
    T.PairOfWord(m.tid);
  }

  lemma {:induction false} Serves(st: Store.State, slave: Byte, pdu: seq<Byte>, req: Request)
    requires slave != 0 && Requests.DecodedPdu(pdu) == Ok(req)
    ensures Answer(st, slave, pdu).0 == Store.Served(st, req).0
  {
    hide Requests.Decoded, Store.Served;
  }

  // ── The client methods ───────────────────────────────────────────────────

  /** The error for a response other than the expected one. */
  function Unexpected(rsp: Response): ModbusError {
    match rsp
    case Exception(fc, exception) => ExceptionError(fc, CodeOf(exception))
    case _ => Protocol
  }

  function ReadCoils(link: Link, st: Store.State, slave: Byte, addr: U16, qty: U16)
    : (Store.State, Result<seq<bool>, ModbusError>)
  {
    match Call(link, st, slave, Request.ReadCoils(addr, qty))
    case (next, Err(e)) => (next, Err(e))
    case (next, Ok(rsp)) => (next, if rsp.ReadCoils? then Ok(rsp.bits) else Err(Unexpected(rsp)))
  }

  function ReadDiscreteInputs(link: Link, st: Store.State, slave: Byte, addr: U16, qty: U16)
    : (Store.State, Result<seq<bool>, ModbusError>)
  {
    match Call(link, st, slave, Request.ReadDiscreteInputs(addr, qty))
    case (next, Err(e)) => (next, Err(e))
    case (next, Ok(rsp)) => (next, if rsp.ReadDiscreteInputs? then Ok(rsp.bits) else Err(Unexpected(rsp)))
  }

  function ReadHoldingRegisters(link: Link, st: Store.State, slave: Byte, addr: U16, qty: U16)
    : (Store.State, Result<seq<U16>, ModbusError>)
  {
    match Call(link, st, slave, Request.ReadHoldingRegisters(addr, qty))
    case (next, Err(e)) => (next, Err(e))
    case (next, Ok(rsp)) => (next, if rsp.ReadHoldingRegisters? then Ok(rsp.words) else Err(Unexpected(rsp)))
  }

  function ReadInputRegisters(link: Link, st: Store.State, slave: Byte, addr: U16, qty: U16)
    : (Store.State, Result<seq<U16>, ModbusError>)
  {
    match Call(link, st, slave, Request.ReadInputRegisters(addr, qty))
    case (next, Err(e)) => (next, Err(e))
    case (next, Ok(rsp)) => (next, if rsp.ReadInputRegisters? then Ok(rsp.words) else Err(Unexpected(rsp)))
  }

  function WriteSingleCoil(link: Link, st: Store.State, slave: Byte, addr: U16, on: bool)
    : (Store.State, Result<(), ModbusError>)
  {
    match Call(link, st, slave, Request.WriteSingleCoil(addr, on))
    case (next, Err(e)) => (next, Err(e))
    case (next, Ok(rsp)) =>
      (next, if rsp.WriteSingleCoil? && rsp.addr == addr && rsp.on == on then Ok(()) else Err(Unexpected(rsp)))
  }

  function WriteSingleRegister(link: Link, st: Store.State, slave: Byte, addr: U16, word: U16)
    : (Store.State, Result<(), ModbusError>)
  {
    match Call(link, st, slave, Request.WriteSingleRegister(addr, word))
    case (next, Err(e)) => (next, Err(e))
    case (next, Ok(rsp)) =>
      (next, if rsp.WriteSingleRegister? && rsp.addr == addr && rsp.word == word then Ok(()) else Err(Unexpected(rsp)))
  }

  function WriteMultipleCoils(link: Link, st: Store.State, slave: Byte, addr: U16, coils: seq<bool>)
    : (Store.State, Result<(), ModbusError>)
  {
    match Call(link, st, slave, Request.WriteMultipleCoils(addr, coils))
    case (next, Err(e)) => (next, Err(e))
    case (next, Ok(rsp)) =>
      (next, if rsp.WriteMultipleCoils? && rsp.addr == addr && rsp.qty == |coils| then Ok(()) else Err(Unexpected(rsp)))
  }

  function WriteMultipleRegisters(link: Link, st: Store.State, slave: Byte, addr: U16, words: seq<U16>)
    : (Store.State, Result<(), ModbusError>)
  {
    match Call(link, st, slave, Request.WriteMultipleRegisters(addr, words))
    case (next, Err(e)) => (next, Err(e))
    case (next, Ok(rsp)) =>
      (next,
       if rsp.WriteMultipleRegisters? && rsp.addr == addr && rsp.qty == |words| then Ok(()) else Err(Unexpected(rsp)))
  }

  function MaskWriteRegister(link: Link, st: Store.State, slave: Byte, addr: U16, andMask: U16, orMask: U16)
    : (Store.State, Result<(), ModbusError>)
  {
    match Call(link, st, slave, Request.MaskWriteRegister(addr, andMask, orMask))
    case (next, Err(e)) => (next, Err(e))
    case (next, Ok(rsp)) =>
      (next,
       if rsp.MaskWriteRegister? && rsp.addr == addr && rsp.andMask == andMask && rsp.orMask == orMask then Ok(())
       else Err(Unexpected(rsp)))
  }

  function Diagnostic(link: Link, st: Store.State, slave: Byte, subFunction: U16, word: U16)
    : (Store.State, Result<(U16, U16), ModbusError>)
  {
    match Call(link, st, slave, Request.Diagnostic(subFunction, word))
    case (next, Err(e)) => (next, Err(e))
    case (next, Ok(rsp)) =>
      (next, if rsp.Diagnostic? then Ok((rsp.subFunction, rsp.word)) else Err(Unexpected(rsp)))
  }

  function ReadWriteMultipleRegisters(
      link: Link, st: Store.State, slave: Byte, addr: U16, qty: U16, writeAddr: U16, words: seq<U16>)
    : (Store.State, Result<seq<U16>, ModbusError>)
  {
    match Call(link, st, slave, Request.ReadWriteMultipleRegisters(addr, qty, writeAddr, words))
    case (next, Err(e)) => (next, Err(e))
    case (next, Ok(rsp)) => (next, if rsp.ReadWriteMultipleRegisters? then Ok(rsp.words) else Err(Unexpected(rsp)))
  }

  // A call that is answered: its range is right, it fits, and a slave is named.
  lemma {:induction false} Answered(link: Link, st: Store.State, mem: Store.Memory, slave: Byte, req: Request)
    requires Store.Holds(st, mem) && slave != 0 && Requests.FitsPdu(req) && Requests.InRange(req)
    requires Carries(link, slave, req)
    ensures Store.Holds(Call(link, st, slave, req).0, Store.Meaning(mem, req).0)
    ensures Call(link, st, slave, req).1 == Ok(Responses.Normal(Reply(req, Store.Meaning(mem, req).1)))
  {
    hide Store.Holds, Store.Meaning, Exchange, Carries, Settles, Responses.Normal;
    CallRefines(link, st, mem, slave, req);
  }

  /** Reads return what the memory holds, coils padded with false to whole bytes, and change nothing. */
  lemma {:induction false} ReadsReturnMemory(
      link: Link, st: Store.State, mem: Store.Memory, slave: Byte, addr: U16, qty: U16)
    requires Store.Holds(st, mem) && slave != 0
    ensures Requests.RangeOk(addr, qty, MAX_COILS) && Carries(link, slave, Request.ReadCoils(addr, qty)) ==>
              var (next, r) := ReadCoils(link, st, slave, addr, qty);
              r == Ok(Store.Range(mem.coils, addr, qty) + Zeros(Padding(qty))) && Store.Holds(next, mem)
    ensures Requests.RangeOk(addr, qty, MAX_COILS) && Carries(link, slave, Request.ReadDiscreteInputs(addr, qty)) ==>
              var (next, r) := ReadDiscreteInputs(link, st, slave, addr, qty);
              r == Ok(Store.Range(mem.inputs, addr, qty) + Zeros(Padding(qty))) && Store.Holds(next, mem)
    ensures Requests.RangeOk(addr, qty, MAX_REGISTERS) && Carries(link, slave, Request.ReadHoldingRegisters(addr, qty)) ==>
              var (next, r) := ReadHoldingRegisters(link, st, slave, addr, qty);
              r == Ok(Store.Range(mem.holding, addr, qty)) && Store.Holds(next, mem)
    ensures Requests.RangeOk(addr, qty, MAX_REGISTERS) && Carries(link, slave, Request.ReadInputRegisters(addr, qty)) ==>
              var (next, r) := ReadInputRegisters(link, st, slave, addr, qty);
              r == Ok(Store.Range(mem.input, addr, qty)) && Store.Holds(next, mem)
  {
    hide Store.Holds, Call, Carries, Zeros, Padding;
    if Requests.RangeOk(addr, qty, MAX_COILS) && Carries(link, slave, Request.ReadCoils(addr, qty)) {
      Answered(link, st, mem, slave, Request.ReadCoils(addr, qty));
    }
    if Requests.RangeOk(addr, qty, MAX_COILS) && Carries(link, slave, Request.ReadDiscreteInputs(addr, qty)) {
      Answered(link, st, mem, slave, Request.ReadDiscreteInputs(addr, qty));
    }
    if Requests.RangeOk(addr, qty, MAX_REGISTERS) && Carries(link, slave, Request.ReadHoldingRegisters(addr, qty)) {
      Answered(link, st, mem, slave, Request.ReadHoldingRegisters(addr, qty));
    }
    if Requests.RangeOk(addr, qty, MAX_REGISTERS) && Carries(link, slave, Request.ReadInputRegisters(addr, qty)) {
      Answered(link, st, mem, slave, Request.ReadInputRegisters(addr, qty));
    }
  }

  /** Single writes and masked writes are confirmed and change the one address they name. */
  lemma {:induction false} SingleWritesTakeEffect(
      link: Link, st: Store.State, mem: Store.Memory, slave: Byte, addr: U16, on: bool, word: U16, orMask: U16)
    requires Store.Holds(st, mem) && slave != 0
    ensures Carries(link, slave, Request.WriteSingleCoil(addr, on)) ==>
              var (next, r) := WriteSingleCoil(link, st, slave, addr, on);
              r == Ok(()) && Store.Holds(next, mem.(coils := Store.Overwrite(mem.coils, addr, [on])))
    ensures Carries(link, slave, Request.WriteSingleRegister(addr, word)) ==>
              var (next, r) := WriteSingleRegister(link, st, slave, addr, word);
              r == Ok(()) && Store.Holds(next, mem.(holding := Store.Overwrite(mem.holding, addr, [word])))
    ensures Carries(link, slave, Request.MaskWriteRegister(addr, word, orMask)) ==>
              var (next, r) := MaskWriteRegister(link, st, slave, addr, word, orMask);
              var masked := Store.Masked(mem.holding(addr), word, orMask);
              r == Ok(()) && Store.Holds(next, mem.(holding := Store.Overwrite(mem.holding, addr, [masked])))
  {
    hide Store.Holds, Call, Carries, Store.Masked, Store.Overwrite;
    if Carries(link, slave, Request.WriteSingleCoil(addr, on)) {
      Answered(link, st, mem, slave, Request.WriteSingleCoil(addr, on));
    }
    if Carries(link, slave, Request.WriteSingleRegister(addr, word)) {
      Answered(link, st, mem, slave, Request.WriteSingleRegister(addr, word));
    }
    if Carries(link, slave, Request.MaskWriteRegister(addr, word, orMask)) {
      Answered(link, st, mem, slave, Request.MaskWriteRegister(addr, word, orMask));
    }
  }

  /** A diagnostic request is echoed, answered with a zero counter, or refused, according to its sub-function. */
  lemma {:induction false} DiagnosticAnswers(
      link: Link, st: Store.State, mem: Store.Memory, slave: Byte, subFunction: U16, word: U16)
    requires Store.Holds(st, mem) && slave != 0 && Carries(link, slave, Request.Diagnostic(subFunction, word))
    ensures var (next, r) := Diagnostic(link, st, slave, subFunction, word);
            && Store.Holds(next, mem)
            && r == (if subFunction == 0 then Ok((0, word))
                     else if 10 <= subFunction <= 14 then Ok((subFunction, 0))
                     else Err(ExceptionError(8, 3)))
  {
    hide Store.Holds, Call, Carries;
    Answered(link, st, mem, slave, Request.Diagnostic(subFunction, word));
  }

  /**
   A batch write of coils that fits a PDU is confirmed, and any later read, over whatever link, sees it and nothing else
   changed.
   */
  lemma {:induction false} ReadAfterWritingCoils(
      link: Link, st: Store.State, mem: Store.Memory, slave: Byte, addr: U16, coils: seq<bool>,
      other: Link, readAddr: U16, qty: U16)
    requires Store.Holds(st, mem) && slave != 0 && Requests.RangeOk(addr, |coils|, 1976)
    requires Requests.RangeOk(readAddr, qty, MAX_COILS)
    requires Carries(link, slave, Request.WriteMultipleCoils(addr, coils))
    requires Carries(other, slave, Request.ReadCoils(readAddr, qty))
    ensures var (next, w) := WriteMultipleCoils(link, st, slave, addr, coils);
            var (_, r) := ReadCoils(other, next, slave, readAddr, qty);
            && w == Ok(())
            && r == Ok(Store.Range(Store.Overwrite(mem.coils, addr, coils), readAddr, qty) + Zeros(Padding(qty)))
            && (readAddr == addr && qty == |coils| ==> r == Ok(coils + Zeros(Padding(qty))))
  {
    hide Store.Holds, Call, Carries, Zeros, Padding, Store.Overwrite, Store.Range;
    Answered(link, st, mem, slave, Request.WriteMultipleCoils(addr, coils));
    var next := WriteMultipleCoils(link, st, slave, addr, coils).0;
    ReadsReturnMemory(other, next, mem.(coils := Store.Overwrite(mem.coils, addr, coils)), slave, readAddr, qty);
    RangeOfOverwrite(mem.coils, addr, coils);
  }

  /** The same for registers. */
  lemma {:induction false} ReadAfterWritingRegisters(
      link: Link, st: Store.State, mem: Store.Memory, slave: Byte, addr: U16, words: seq<U16>,
      other: Link, readAddr: U16, qty: U16)
    requires Store.Holds(st, mem) && slave != 0 && Requests.RangeOk(addr, |words|, 123)
    requires Requests.RangeOk(readAddr, qty, MAX_REGISTERS)
    requires Carries(link, slave, Request.WriteMultipleRegisters(addr, words))
    requires Carries(other, slave, Request.ReadHoldingRegisters(readAddr, qty))
    ensures var (next, w) := WriteMultipleRegisters(link, st, slave, addr, words);
            var (_, r) := ReadHoldingRegisters(other, next, slave, readAddr, qty);
            && w == Ok(())
            && r == Ok(Store.Range(Store.Overwrite(mem.holding, addr, words), readAddr, qty))
            && (readAddr == addr && qty == |words| ==> r == Ok(words))
  {
    hide Store.Holds, Call, Carries, Store.Overwrite, Store.Range;
    Answered(link, st, mem, slave, Request.WriteMultipleRegisters(addr, words));
    var next := WriteMultipleRegisters(link, st, slave, addr, words).0;
    ReadsReturnMemory(other, next, mem.(holding := Store.Overwrite(mem.holding, addr, words)), slave, readAddr, qty);
    RangeOfOverwrite(mem.holding, addr, words);
  }

  lemma {:induction false} RangeOfOverwrite<V>(m: nat -> V, addr: nat, values: seq<V>)
    ensures Store.Range(Store.Overwrite(m, addr, values), addr, |values|) == values
  {
  }

  /** The combined call returns the registers as they were before its own write. */
  lemma {:induction false} ReadWriteReturnsOldValues(
      link: Link, st: Store.State, mem: Store.Memory, slave: Byte, addr: U16, qty: U16, writeAddr: U16, words: seq<U16>)
    requires Store.Holds(st, mem) && slave != 0
    requires Requests.RangeOk(addr, qty, MAX_REGISTERS) && Requests.RangeOk(writeAddr, |words|, 121)
    requires Carries(link, slave, Request.ReadWriteMultipleRegisters(addr, qty, writeAddr, words))
    ensures var (next, r) := ReadWriteMultipleRegisters(link, st, slave, addr, qty, writeAddr, words);
            && r == Ok(Store.Range(mem.holding, addr, qty))
            && Store.Holds(next, mem.(holding := Store.Overwrite(mem.holding, writeAddr, words)))
  {
    hide Store.Holds, Call, Carries, Store.Overwrite, Store.Range;
    Answered(link, st, mem, slave, Request.ReadWriteMultipleRegisters(addr, qty, writeAddr, words));
  }

  // The calls of this family: a coil read each.
  lemma {:induction false} AmbiguousCall(link: Link, st: Store.State, req: Request)
    requires link.TcpLink? && !link.cfg.unitIdInBody
    requires RequestFunction(req) in {15, 16, 22, 23} && Requests.EncodedInto(req).ok && Requests.InRange(req)
    requires 256 <= req.addr < 496 && 1 <= T.SecondField(req) <= 6
    ensures var (next, outcome) := Call(link, st, RequestFunction(req), req);
            next == st && outcome.Ok? && outcome.value.ReadCoils?
  {
    hide Call, T.SecondField, T.Ambiguous, T.ShortAccepted, T.Shortened, T.FrameOf, Requests.EncodedInto, Requests.Decoded,
      Requests.InRange, Reads, Answer, T.CutShort;
    var slave := RequestFunction(req);
    var m := MessageOf(link, slave, req);
    Requests.NotDisconnect(req);
    if T.CutShort(m, link.cfg, Reads(T.FrameOf(m, link.cfg), link.pieces)) {
      OnlyPduOnly(m, link.cfg, Reads(T.FrameOf(m, link.cfg), link.pieces));
      T.AmbiguousShortened(req, link.tid);
      CutShortCall(link, st, slave, req);
      CoilsAnswered(st, slave, T.Shortened(m, link.cfg).pdu);
    } else {
      T.AmbiguousRequests(req, link.tid, link.cfg.lengthMode);
      MisreadCall(link, st, slave, req);
      CoilsAnswered(st, slave, T.Mistaken(m, link.cfg));
    }
  }

  lemma {:induction false} OnlyPduOnly(m: T.Frame, cfg: T.Config, parts: seq<seq<Byte>>)
    requires T.CutShort(m, cfg, parts)
    ensures cfg.lengthMode.PduOnly?
  {
  }

  lemma {:induction false} CoilsAnswered(st: Store.State, slave: Byte, pdu: seq<Byte>)
    requires slave != 0 && Requests.DecodedPdu(pdu).Ok? && Requests.DecodedPdu(pdu).value.ReadCoils?
    ensures var (next, outcome) := Answer(st, slave, pdu);
            next == st && outcome.Ok? && outcome.value.ReadCoils?
  {
    hide Requests.Decoded, Store.BitRange, Zeros, Padding;
  }

  /**
   With the unit in the header alone, as is the default, and however the frame is cut, a batch write to unit 15 or 16, a
   masked write to unit 22 or a combined call to unit 23 at addresses 256 to 495, with a second field of 1 to 6, is
   served as a coil read: the write is lost, and whichever client method made the call reports a protocol error.
   */
  lemma {:induction false} AmbiguousWriteLost(link: Link, st: Store.State, req: Request)
    requires link.TcpLink? && !link.cfg.unitIdInBody
    requires RequestFunction(req) in {15, 16, 22, 23} && Requests.EncodedInto(req).ok && Requests.InRange(req)
    requires 256 <= req.addr < 496 && 1 <= T.SecondField(req) <= 6
    ensures var (next, outcome) := Call(link, st, RequestFunction(req), req);
            next == st && outcome.Ok? && outcome.value.ReadCoils?
    ensures req.WriteMultipleCoils? ==> WriteMultipleCoils(link, st, 15, req.addr, req.coils) == (st, Err(Protocol))
    ensures req.WriteMultipleRegisters? ==>
              WriteMultipleRegisters(link, st, 16, req.addr, req.words) == (st, Err(Protocol))
    ensures req.MaskWriteRegister? ==>
              MaskWriteRegister(link, st, 22, req.addr, req.andMask, req.orMask) == (st, Err(Protocol))
    ensures req.ReadWriteMultipleRegisters? ==>
              ReadWriteMultipleRegisters(link, st, 23, req.addr, req.qty, req.writeAddr, req.words) == (st, Err(Protocol))
  {
    hide Call, T.SecondField, Requests.EncodedInto, Requests.InRange;
    AmbiguousCall(link, st, req);
  }
}
