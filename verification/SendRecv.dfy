/** The server side of one request (`process_server_request` in `src/transport/send_recv.rs`). */
module SendRecv {
  import opened Wire
  import opened Pdu
  import Requests = RequestCodec
  import Responses = ResponseCodec
  import Store = SlaveStore

  /** What the service's result becomes on the wire. */
  function Reply(req: Request, result: Result<Response, ExceptionCode>): Response {
    match result
    case Ok(rsp) => rsp
    case Err(exception) => Response.Exception(RequestFunction(req), exception)
  }

  /** The new store, and the reply bytes: slave address, then the response PDU. */
  function Processed(st: Store.State, slave: Byte, pdu: seq<Byte>): (Store.State, Option<seq<Byte>>) {
    if slave == 0 || pdu == [] || Requests.DecodedPdu(pdu).Err? then (st, None)
    else
      var req := Requests.DecodedPdu(pdu).value;
      var (next, result) := Store.Served(st, req);
      var e := Responses.EncodedInto(Reply(req, result));
      (next, if e.ok then Some([slave] + e.appended) else None)
  }

  method ProcessServerRequest(pdu: seq<Byte>, slave: Byte, store: Store.SlaveStore, rspBuf: BytesMut)
    returns (rsp: Option<seq<Byte>>)
    requires store.Valid()
    modifies store.coils, store.holdingRegisters, rspBuf
    ensures (store.Value(), rsp) == Processed(old(store.Value()), slave, pdu)
    ensures rsp.Some? ==> rspBuf.data == []
  {
    hide Store.Served, Requests.Decoded, Responses.EncodedInto, Responses.FitsPdu;
    if slave == 0 {
      return None;
    }
    if pdu == [] {
      return None;
    }
    var cur := new Cursor(pdu[1..]);
    var decoded := Requests.DecodeRequest(pdu[0], cur);
    if decoded.Err? {
      return None;
    }
    var req := decoded.value;
    var result := store.Call(req);
    var response := Reply(req, result);
    rspBuf.Clear();
    rspBuf.PutU8(slave);
    Responses.EncoderLimits(response);
    var ok := Responses.EncodeResponseInto(response, rspBuf);
    assert store.Value() == Processed(old(store.Value()), slave, pdu).0;
    if !ok {
      return None;
    }
    assert rspBuf.data == [slave] + Responses.EncodedInto(response).appended;
    rsp := Some(rspBuf.data);
    rspBuf.Clear();
  }

  /** What serving frames one after the other does to the store, and the bytes written, given what one frame does. */
  function Answers<F>(st: Store.State, frames: seq<F>, answer: (Store.State, F) -> (Store.State, seq<Byte>))
    : (Store.State, seq<Byte>)
  {
    if frames == [] then (st, [])
    else
      var (now, written) := Answers(st, frames[..|frames| - 1], answer);
      var (next, bytes) := answer(now, frames[|frames| - 1]);
      (next, written + bytes)
  }

  lemma {:induction false} OneMoreAnswer<F>(
      st: Store.State, frames: seq<F>, frame: F, answer: (Store.State, F) -> (Store.State, seq<Byte>))
    ensures var (now, written) := Answers(st, frames, answer);
            Answers(st, frames + [frame], answer) == (answer(now, frame).0, written + answer(now, frame).1)
  {
    assert (frames + [frame])[..|frames|] == frames;
  }

  lemma {:induction false} NoAnswers<F>(st: Store.State, answer: (Store.State, F) -> (Store.State, seq<Byte>))
    ensures Answers(st, [], answer) == (st, [])
  {
  }

  // ── Every decodable request is answered ──────────────────────────────────

  lemma {:induction false} ReplyFits(st: Store.State, req: Request)
    requires Requests.InRange(req)
    ensures Responses.EncodedInto(Reply(req, Store.Served(st, req).1)).ok
  {
    Responses.EncoderLimits(Reply(req, Store.Served(st, req).1));
  }

  /**
   Every decodable request to a slave other than 0 is answered, by a frame of at most 254 bytes that reads back as the
   service's reply; anything else is not answered and leaves the store alone.
   */
  lemma {:induction false} AnsweredExactly(st: Store.State, slave: Byte, pdu: seq<Byte>)
    ensures Processed(st, slave, pdu).1.Some? <==> slave != 0 && Requests.DecodedPdu(pdu).Ok?
    ensures Processed(st, slave, pdu).1.None? ==> Processed(st, slave, pdu).0 == st
    ensures Processed(st, slave, pdu).1.Some? ==>
              var req, rsp := Requests.DecodedPdu(pdu).value, Processed(st, slave, pdu).1.value;
              && 3 <= |rsp| <= 1 + MAX_PDU_SIZE
              && rsp == [slave] + Responses.EncodedInto(Reply(req, Store.Served(st, req).1)).appended
              && Responses.DecodedPdu(rsp[1..]) == Ok(Responses.Normal(Reply(req, Store.Served(st, req).1)))
  {
    hide Store.Served, Requests.Decoded, Responses.EncodedInto, Responses.Normal, Responses.DecodedPdu;
    if slave != 0 && Requests.DecodedPdu(pdu).Ok? {
      var req := Requests.DecodedPdu(pdu).value;
      Requests.RequestReencodes(pdu);
      ReplyFits(st, req);
      var rsp := Reply(req, Store.Served(st, req).1);
      Responses.EncoderLimits(rsp);
      Responses.ResponseRoundTrip(rsp, []);
      var e := Responses.EncodedInto(rsp);
      assert e.appended + [] == e.appended && ([slave] + e.appended)[1..] == e.appended;
    }
  }
}
