/** The request PDU codec of `src/frame.rs`: eleven function codes, range checks and size limits. */
module RequestCodec {
  import opened Bits
  import opened Wire
  import opened Pdu

  // ── What the encoder writes ──────────────────────────────────────────────

  predicate HasPayload(req: Request) {
    req.WriteMultipleCoils? || req.WriteMultipleRegisters? || req.ReadWriteMultipleRegisters?
  }

  function PayloadSize(req: Request): nat {
    match req
    case WriteMultipleCoils(_, coils) => CeilDiv8(|coils|)
    case WriteMultipleRegisters(_, words) => 2 * |words|
    case ReadWriteMultipleRegisters(_, _, _, words) => 2 * |words|
    case _ => 0
  }

  function Payload(req: Request): (bytes: seq<Byte>)
    ensures |bytes| == PayloadSize(req)
  {
    match req
    case WriteMultipleCoils(_, coils) => PackCoils(coils)
    case WriteMultipleRegisters(_, words) => PackWords(words)
    case ReadWriteMultipleRegisters(_, _, _, words) => PackWords(words)
    case _ => []
  }

  function CoilWord(on: bool): U16 {
    if on then 0xFF00 else 0
  }

  /** The fixed fields; element counts are truncated to sixteen bits as the source's casts do. */
  function Prefix(req: Request): seq<Byte> {
    match req
    case ReadCoils(addr, qty) => BeBytes(addr) + BeBytes(qty)
    case ReadDiscreteInputs(addr, qty) => BeBytes(addr) + BeBytes(qty)
    case ReadHoldingRegisters(addr, qty) => BeBytes(addr) + BeBytes(qty)
    case ReadInputRegisters(addr, qty) => BeBytes(addr) + BeBytes(qty)
    case WriteSingleCoil(addr, on) => BeBytes(addr) + BeBytes(CoilWord(on))
    case WriteSingleRegister(addr, word) => BeBytes(addr) + BeBytes(word)
    case WriteMultipleCoils(addr, coils) => BeBytes(addr) + BeBytes(|coils| % 0x1_0000)
    case WriteMultipleRegisters(addr, words) => BeBytes(addr) + BeBytes(|words| % 0x1_0000)
    case ReadWriteMultipleRegisters(addr, qty, writeAddr, words) =>
      BeBytes(addr) + BeBytes(qty) + BeBytes(writeAddr) + BeBytes(|words| % 0x1_0000)
    case MaskWriteRegister(addr, andMask, orMask) => BeBytes(addr) + BeBytes(andMask) + BeBytes(orMask)
    case Diagnostic(subFunction, word) => BeBytes(subFunction) + BeBytes(word)
    case Disconnect => []
  }

  function Head(req: Request): seq<Byte> {
    [RequestFunction(req)] + Prefix(req)
  }

  /** The inner encoder: it stops at a byte count that does not fit a byte, with the head already written. */
  function Encoded(req: Request): Encoding {
    if req.Disconnect? then Encoding(true, [])
    else if !HasPayload(req) then Encoding(true, Head(req))
    else if PayloadSize(req) > 255 then Encoding(false, Head(req))
    else Encoding(true, Head(req) + [PayloadSize(req)] + Payload(req))
  }

  /** The public encoder: as above, and an oversized PDU is taken back. */
  function EncodedInto(req: Request): Encoding {
    var e := Encoded(req);
    if e.ok && |e.appended| > MAX_PDU_SIZE then Encoding(false, []) else e
  }

  method PutFields(buf: BytesMut, first: U16, second: U16)
    modifies buf
    ensures buf.data == old(buf.data) + (BeBytes(first) + BeBytes(second))
  {
    buf.PutU16(first);
    buf.PutU16(second);
  }

  method EncodeFixed(req: Request, buf: BytesMut)
    requires !HasPayload(req) && !req.Disconnect?
    modifies buf
    ensures buf.data == old(buf.data) + Head(req)
  {
    buf.PutU8(RequestFunction(req));
    match req {
      case ReadCoils(addr, qty) => PutFields(buf, addr, qty);
      case ReadDiscreteInputs(addr, qty) => PutFields(buf, addr, qty);
      case ReadHoldingRegisters(addr, qty) => PutFields(buf, addr, qty);
      case ReadInputRegisters(addr, qty) => PutFields(buf, addr, qty);
      case WriteSingleCoil(addr, on) => PutFields(buf, addr, if on then 0xFF00 else 0);
      case WriteSingleRegister(addr, word) => PutFields(buf, addr, word);
      case MaskWriteRegister(addr, andMask, orMask) => PutFields(buf, addr, andMask); buf.PutU16(orMask);
      case Diagnostic(subFunction, word) => PutFields(buf, subFunction, word);
    }
  }

  method EncodeCoils(req: Request, buf: BytesMut) returns (ok: bool)
    requires req.WriteMultipleCoils?
    modifies buf
    ensures ok == Encoded(req).ok
    ensures buf.data == old(buf.data) + Encoded(req).appended
  {
    buf.PutU8(15);
    buf.PutU16(req.addr);
    buf.PutU16(|req.coils| % 0x1_0000);
    if CeilDiv8(|req.coils|) > 255 {
      return false;
    }
    buf.PutU8(CeilDiv8(|req.coils|));
    PutCoils(buf, req.coils);
    ok := true;
  }

  method PutCountedWords(buf: BytesMut, words: seq<U16>) returns (ok: bool)
    modifies buf
    ensures ok == (2 * |words| <= 255)
    ensures buf.data == old(buf.data) + BeBytes(|words| % 0x1_0000) + if ok then [2 * |words|] + PackWords(words) else []
  {
    buf.PutU16(|words| % 0x1_0000);
    if |words| * 2 > 255 {
      return false;
    }
    buf.PutU8(|words| * 2);
    PutWords(buf, words);
    ok := true;
  }

  method EncodeRegisters(req: Request, buf: BytesMut) returns (ok: bool)
    requires req.WriteMultipleRegisters?
    modifies buf
    ensures ok == Encoded(req).ok
    ensures buf.data == old(buf.data) + Encoded(req).appended
  {
    buf.PutU8(16);
    buf.PutU16(req.addr);
    ok := PutCountedWords(buf, req.words);
  }

  method EncodeReadWrite(req: Request, buf: BytesMut) returns (ok: bool)
    requires req.ReadWriteMultipleRegisters?
    modifies buf
    ensures ok == Encoded(req).ok
    ensures buf.data == old(buf.data) + Encoded(req).appended
  {
    hide BeBytes, PackWords;
    buf.PutU8(23);
    PutFields(buf, req.addr, req.qty);
    buf.PutU16(req.writeAddr);
    ok := PutCountedWords(buf, req.words);
  }

  method EncodeRequest(req: Request, buf: BytesMut) returns (ok: bool)
    modifies buf
    ensures ok == Encoded(req).ok
    ensures buf.data == old(buf.data) + Encoded(req).appended
  {
    ok := true;
    match req {
      case Disconnect =>
      case WriteMultipleCoils(_, _) => ok := EncodeCoils(req, buf);
      case WriteMultipleRegisters(_, _) => ok := EncodeRegisters(req, buf);
      case ReadWriteMultipleRegisters(_, _, _, _) => ok := EncodeReadWrite(req, buf);
      case _ => EncodeFixed(req, buf);
    }
  }

  method EncodeRequestInto(req: Request, buf: BytesMut) returns (ok: bool)
    modifies buf
    ensures ok == EncodedInto(req).ok
    ensures buf.data == old(buf.data) + EncodedInto(req).appended
  {
    var start := |buf.data|;
    ok := EncodeRequest(req, buf);
    if !ok {
      return false;
    }
    if |buf.data| - start > MAX_PDU_SIZE {
      buf.Truncate(start);
      return false;
    }
  }

  // ── What the decoder reads ───────────────────────────────────────────────

  // `addr`, `qty`, then the two range checks shared by every range-carrying function.
  function ReadRange(d: seq<Byte>, max: int): Result<(U16, U16), ErrorKind> {
    if |d| < 4 then Err(UnexpectedEof)
    else
      var addr, qty := BeU16(d[0], d[1]), BeU16(d[2], d[3]);
      if qty == 0 || qty > max then Err(InvalidData)
      else if addr + qty > 0x1_0000 then Err(InvalidData)
      else Ok((addr, qty))
  }

  // The byte count, which must be `size`, and that many bytes.
  function ReadPayload(d: seq<Byte>, size: nat): (r: Result<seq<Byte>, ErrorKind>)
    ensures r.Ok? ==> |d| >= 1 + size && r.value == d[1..1 + size] && d[0] == size
  {
    if |d| < 1 then Err(UnexpectedEof)
    else if d[0] != size then Err(InvalidData)
    else if |d| - 1 < size then Err(UnexpectedEof)
    else Ok(d[1..1 + size])
  }

  function DecodedCoils(d: seq<Byte>): (r: Result<Request, ErrorKind>)
    ensures r.Ok? ==> r.value.WriteMultipleCoils?
  {
    var (addr, qty) :- ReadRange(d, MAX_COILS);
    var bytes :- ReadPayload(d[4..], CeilDiv8(qty));
    Ok(Request.WriteMultipleCoils(addr, Serial(bytes)[..qty]))
  }

  function DecodedRegisters(d: seq<Byte>): (r: Result<Request, ErrorKind>)
    ensures r.Ok? ==> r.value.WriteMultipleRegisters?
  {
    var (addr, qty) :- ReadRange(d, MAX_REGISTERS);
    var bytes :- ReadPayload(d[4..], 2 * qty);
    Ok(Request.WriteMultipleRegisters(addr, UnpackWords(bytes)))
  }

  function DecodedReadWrite(d: seq<Byte>): (r: Result<Request, ErrorKind>)
    ensures r.Ok? ==> r.value.ReadWriteMultipleRegisters?
  {
    var (addr, qty) :- ReadRange(d, MAX_REGISTERS);
    var (writeAddr, writeQty) :- ReadRange(d[4..], MAX_REGISTERS);
    var bytes :- ReadPayload(d[8..], 2 * writeQty);
    Ok(Request.ReadWriteMultipleRegisters(addr, qty, writeAddr, UnpackWords(bytes)))
  }

  function Decoded(fc: Byte, d: seq<Byte>): Result<Request, ErrorKind> {
    if fc == 1 then
      var (addr, qty) :- ReadRange(d, MAX_COILS);
      Ok(Request.ReadCoils(addr, qty))
    else if fc == 2 then
      var (addr, qty) :- ReadRange(d, MAX_COILS);
      Ok(Request.ReadDiscreteInputs(addr, qty))
    else if fc == 3 then
      var (addr, qty) :- ReadRange(d, MAX_REGISTERS);
      Ok(Request.ReadHoldingRegisters(addr, qty))
    else if fc == 4 then
      var (addr, qty) :- ReadRange(d, MAX_REGISTERS);
      Ok(Request.ReadInputRegisters(addr, qty))
    else if fc == 5 then
      if |d| < 4 then Err(UnexpectedEof)
      else
        var word := BeU16(d[2], d[3]);
        if word != 0xFF00 && word != 0 then Err(InvalidData)
        else Ok(Request.WriteSingleCoil(BeU16(d[0], d[1]), word == 0xFF00))
    else if fc == 6 then
      if |d| < 4 then Err(UnexpectedEof) else Ok(Request.WriteSingleRegister(BeU16(d[0], d[1]), BeU16(d[2], d[3])))
    else if fc == 15 then DecodedCoils(d)
    else if fc == 16 then DecodedRegisters(d)
    else if fc == 22 then
      if |d| < 6 then Err(UnexpectedEof)
      else Ok(Request.MaskWriteRegister(BeU16(d[0], d[1]), BeU16(d[2], d[3]), BeU16(d[4], d[5])))
    else if fc == 23 then DecodedReadWrite(d)
    else if fc == 8 then
      if |d| < 4 then Err(UnexpectedEof) else Ok(Request.Diagnostic(BeU16(d[0], d[1]), BeU16(d[2], d[3])))
    else
      Err(InvalidData)
  }

  /** A request from a whole PDU; bytes after the request are ignored. */
  function DecodedPdu(pdu: seq<Byte>): Result<Request, ErrorKind> {
    if pdu == [] then Err(InvalidData) else Decoded(pdu[0], pdu[1..])
  }

  /** The number of bytes of a PDU its request occupies. */
  function RequestLength(req: Request): nat {
    match req
    case WriteMultipleCoils(_, _) => 6 + PayloadSize(req)
    case WriteMultipleRegisters(_, _) => 6 + PayloadSize(req)
    case ReadWriteMultipleRegisters(_, _, _, _) => 10 + PayloadSize(req)
    case MaskWriteRegister(_, _, _) => 7
    case Disconnect => 0
    case _ => 5
  }

  // The two reads and checks `Decoded` abbreviates as ReadRange.
  method GetRange(cur: Cursor, max: int) returns (r: Result<(U16, U16), ErrorKind>)
    modifies cur
    ensures r == ReadRange(old(cur.rest), max)
    ensures r.Ok? ==> |old(cur.rest)| >= 4 && cur.rest == old(cur.rest)[4..]
  {
    if |cur.rest| < 2 {
      return Err(UnexpectedEof);
    }
    var addr := cur.GetU16();
    if |cur.rest| < 2 {
      return Err(UnexpectedEof);
    }
    var qty := cur.GetU16();
    if qty == 0 || qty > max {
      return Err(InvalidData);
    }
    if addr + qty > 0x1_0000 {
      return Err(InvalidData);
    }
    return Ok((addr, qty));
  }

  method GetTwoWords(cur: Cursor) returns (r: Result<(U16, U16), ErrorKind>)
    modifies cur
    ensures r.Ok? <==> |old(cur.rest)| >= 4
    ensures r.Err? ==> r.error == UnexpectedEof
    ensures r.Ok? ==> r.value.0 == BeU16(old(cur.rest)[0], old(cur.rest)[1])
    ensures r.Ok? ==> r.value.1 == BeU16(old(cur.rest)[2], old(cur.rest)[3]) && cur.rest == old(cur.rest)[4..]
  {
    if |cur.rest| < 2 {
      return Err(UnexpectedEof);
    }
    var first := cur.GetU16();
    if |cur.rest| < 2 {
      return Err(UnexpectedEof);
    }
    var second := cur.GetU16();
    return Ok((first, second));
  }

  // The byte count and its two checks.
  method CheckPayload(cur: Cursor, size: nat) returns (r: Result<(), ErrorKind>)
    modifies cur
    ensures match ReadPayload(old(cur.rest), size)
            case Ok(bytes) => r == Ok(()) && cur.rest == old(cur.rest)[1..] && size <= |cur.rest| && cur.rest[..size] == bytes
            case Err(e) => r == Err(e)
  {
    if |cur.rest| < 1 {
      return Err(UnexpectedEof);
    }
    var byteCount := cur.GetU8();
    if byteCount != size {
      return Err(InvalidData);
    }
    if |cur.rest| < size {
      return Err(UnexpectedEof);
    }
    return Ok(());
  }

  method DecodeCoils(cur: Cursor) returns (r: Result<Request, ErrorKind>)
    modifies cur
    ensures r == DecodedCoils(old(cur.rest))
    ensures r.Ok? ==> Consumed(r.value, old(cur.rest), cur.rest)
  {
    var range :- GetRange(cur, MAX_COILS);
    var size := CeilDiv8(range.1);
    var _ :- CheckPayload(cur, size);
    var coils := TakeCoils(cur, size, range.1);
    return Ok(Request.WriteMultipleCoils(range.0, coils));
  }

  method DecodeRegisters(cur: Cursor) returns (r: Result<Request, ErrorKind>)
    modifies cur
    ensures r == DecodedRegisters(old(cur.rest))
    ensures r.Ok? ==> Consumed(r.value, old(cur.rest), cur.rest)
  {
    var range :- GetRange(cur, MAX_REGISTERS);
    var _ :- CheckPayload(cur, 2 * range.1);
    var words := TakeWords(cur, range.1);
    return Ok(Request.WriteMultipleRegisters(range.0, words));
  }

  method DecodeReadWrite(cur: Cursor) returns (r: Result<Request, ErrorKind>)
    modifies cur
    ensures r == DecodedReadWrite(old(cur.rest))
    ensures r.Ok? ==> Consumed(r.value, old(cur.rest), cur.rest)
  {
    var range :- GetRange(cur, MAX_REGISTERS);
    var writeRange :- GetRange(cur, MAX_REGISTERS);
    var _ :- CheckPayload(cur, 2 * writeRange.1);
    var words := TakeWords(cur, writeRange.1);
    return Ok(Request.ReadWriteMultipleRegisters(range.0, range.1, writeRange.0, words));
  }

  method DecodeMaskWrite(cur: Cursor) returns (r: Result<Request, ErrorKind>)
    modifies cur
    ensures r == Decoded(22, old(cur.rest))
    ensures r.Ok? ==> Consumed(r.value, old(cur.rest), cur.rest)
  {
    var words :- GetTwoWords(cur);
    if |cur.rest| < 2 {
      return Err(UnexpectedEof);
    }
    var orMask := cur.GetU16();
    return Ok(Request.MaskWriteRegister(words.0, words.1, orMask));
  }

  /** The cursor moved past exactly the bytes of the request. */
  ghost predicate Consumed(req: Request, before: seq<Byte>, after: seq<Byte>) {
    1 <= RequestLength(req) <= 1 + |before| && after == before[RequestLength(req) - 1..]
  }

  method DecodeRequest(fc: Byte, cur: Cursor) returns (r: Result<Request, ErrorKind>)
    modifies cur
    ensures r == Decoded(fc, old(cur.rest))
    ensures r.Ok? ==> Consumed(r.value, old(cur.rest), cur.rest)
  {
    if fc == 1 {
      var range :- GetRange(cur, MAX_COILS);
      return Ok(Request.ReadCoils(range.0, range.1));
    } else if fc == 2 {
      var range :- GetRange(cur, MAX_COILS);
      return Ok(Request.ReadDiscreteInputs(range.0, range.1));
    } else if fc == 3 {
      var range :- GetRange(cur, MAX_REGISTERS);
      return Ok(Request.ReadHoldingRegisters(range.0, range.1));
    } else if fc == 4 {
      var range :- GetRange(cur, MAX_REGISTERS);
      return Ok(Request.ReadInputRegisters(range.0, range.1));
    } else if fc == 5 {
      var words :- GetTwoWords(cur);
      if words.1 == 0xFF00 {
        return Ok(Request.WriteSingleCoil(words.0, true));
      } else if words.1 == 0 {
        return Ok(Request.WriteSingleCoil(words.0, false));
      } else {
        return Err(InvalidData);
      }
    } else if fc == 6 {
      var words :- GetTwoWords(cur);
      return Ok(Request.WriteSingleRegister(words.0, words.1));
    } else if fc == 15 {
      r := DecodeCoils(cur);
    } else if fc == 16 {
      r := DecodeRegisters(cur);
    } else if fc == 22 {
      r := DecodeMaskWrite(cur);
    } else if fc == 23 {
      r := DecodeReadWrite(cur);
    } else if fc == 8 {
      var words :- GetTwoWords(cur);
      return Ok(Request.Diagnostic(words.0, words.1));
    } else {
      return Err(InvalidData);
    }
  }

  // ── Theorems ─────────────────────────────────────────────────────────────

  predicate RangeOk(addr: U16, qty: nat, max: nat) {
    1 <= qty <= max && addr + qty <= 0x1_0000
  }

  /** Quantities and address ranges a server accepts. */
  predicate InRange(req: Request) {
    match req
    case ReadCoils(addr, qty) => RangeOk(addr, qty, MAX_COILS)
    case ReadDiscreteInputs(addr, qty) => RangeOk(addr, qty, MAX_COILS)
    case ReadHoldingRegisters(addr, qty) => RangeOk(addr, qty, MAX_REGISTERS)
    case ReadInputRegisters(addr, qty) => RangeOk(addr, qty, MAX_REGISTERS)
    case WriteMultipleCoils(addr, coils) => RangeOk(addr, |coils|, MAX_COILS)
    case WriteMultipleRegisters(addr, words) => RangeOk(addr, |words|, MAX_REGISTERS)
    case ReadWriteMultipleRegisters(addr, qty, writeAddr, words) =>
      RangeOk(addr, qty, MAX_REGISTERS) && RangeOk(writeAddr, |words|, MAX_REGISTERS)
    case Disconnect => false
    case _ => true
  }

  /** The largest payload the encoder accepts: 1976 coils, 123 registers, 121 registers of a read-write. */
  predicate FitsPdu(req: Request) {
    match req
    case WriteMultipleCoils(_, coils) => |coils| <= 1976
    case WriteMultipleRegisters(_, words) => |words| <= 123
    case ReadWriteMultipleRegisters(_, _, _, words) => |words| <= 121
    case _ => true
  }

  lemma {:induction false} EncoderLimits(req: Request)
    ensures EncodedInto(req).ok <==> FitsPdu(req)
    ensures EncodedInto(req).ok ==> |EncodedInto(req).appended| == RequestLength(req) <= MAX_PDU_SIZE
    ensures !EncodedInto(req).ok ==> EncodedInto(req).appended == if PayloadSize(req) > 255 then Head(req) else []
  {
  }

  // The range fields of an encoded request read back as they were written, whatever follows them.
  lemma {:induction false} RangeFields(d: seq<Byte>, addr: U16, qty: U16, after: seq<Byte>, max: nat)
    requires d == BeBytes(addr) + BeBytes(qty) + after
    ensures |d| >= 4 && d[4..] == after && BeU16(d[0], d[1]) == addr && BeU16(d[2], d[3]) == qty
    ensures ReadRange(d, max) == if RangeOk(addr, qty, max) then Ok((addr, qty)) else Err(InvalidData)
  {
  }

  lemma {:induction false} PayloadFields(d: seq<Byte>, size: Byte, bytes: seq<Byte>, after: seq<Byte>)
    requires d == [size] + bytes + after && |bytes| == size
    ensures ReadPayload(d, size) == Ok(bytes)
  {
    assert d[1..1 + size] == bytes;
  }

  /** The encoder's output followed by anything decodes to the request exactly when the request is in range. */
  lemma {:induction false} RequestRoundTrip(req: Request, trailing: seq<Byte>)
    requires EncodedInto(req).ok && !req.Disconnect?
    ensures DecodedPdu(EncodedInto(req).appended + trailing) == if InRange(req) then Ok(req) else Err(InvalidData)
  {
    hide BeBytes, Prefix, Payload, DecodedCoils, DecodedRegisters, DecodedReadWrite, InRange;
    EncoderLimits(req);
    if HasPayload(req) {
      FieldsAreEncoded(req, trailing);
      if req.WriteMultipleCoils? {
        CoilsRoundTrip(req, trailing);
      } else if req.WriteMultipleRegisters? {
        RegistersRoundTrip(req, trailing);
      } else {
        ReadWriteRoundTrip(req, trailing);
      }
    } else {
      FixedRoundTrip(req, trailing);
    }
  }

  lemma {:induction false} FixedRoundTrip(req: Request, trailing: seq<Byte>)
    requires !HasPayload(req) && !req.Disconnect?
    ensures DecodedPdu(Head(req) + trailing) == if InRange(req) then Ok(req) else Err(InvalidData)
  {
    hide BeBytes, BeU16, ReadRange, DecodedCoils, DecodedRegisters, DecodedReadWrite;
    var d := (Head(req) + trailing)[1..];
    assert d == Prefix(req) + trailing;
    match req {
      case ReadCoils(addr, qty) => RangeFields(d, addr, qty, trailing, MAX_COILS);
      case ReadDiscreteInputs(addr, qty) => RangeFields(d, addr, qty, trailing, MAX_COILS);
      case ReadHoldingRegisters(addr, qty) => RangeFields(d, addr, qty, trailing, MAX_REGISTERS);
      case ReadInputRegisters(addr, qty) => RangeFields(d, addr, qty, trailing, MAX_REGISTERS);
      case WriteSingleCoil(addr, on) => WordFields(d, addr, CoilWord(on), trailing);
      case WriteSingleRegister(addr, word) => WordFields(d, addr, word, trailing);
      case Diagnostic(subFunction, word) => WordFields(d, subFunction, word, trailing);
      case MaskWriteRegister(addr, andMask, orMask) => MaskFields(d, addr, andMask, orMask, trailing);
    }
  }

  lemma {:induction false} WordFields(d: seq<Byte>, first: U16, second: U16, after: seq<Byte>)
    requires d == BeBytes(first) + BeBytes(second) + after
    ensures |d| >= 4 && BeU16(d[0], d[1]) == first && BeU16(d[2], d[3]) == second
  {
  }

  lemma {:induction false} MaskFields(d: seq<Byte>, first: U16, second: U16, third: U16, after: seq<Byte>)
    requires d == BeBytes(first) + BeBytes(second) + BeBytes(third) + after
    ensures |d| >= 6 && BeU16(d[0], d[1]) == first && BeU16(d[2], d[3]) == second && BeU16(d[4], d[5]) == third
  {
  }

  // The bytes after the function code of an accepted sized request, and whatever follows it.
  function Fields(req: Request, trailing: seq<Byte>): seq<Byte>
    requires HasPayload(req) && FitsPdu(req)
  {
    Prefix(req) + ([PayloadSize(req)] + Payload(req) + trailing)
  }

  lemma {:induction false} FieldsAreEncoded(req: Request, trailing: seq<Byte>)
    requires HasPayload(req) && FitsPdu(req)
    ensures Encoded(req).appended + trailing == [RequestFunction(req)] + Fields(req, trailing)
  {
    hide Prefix, Payload, RequestFunction;
    Regroup([RequestFunction(req)], Prefix(req), [PayloadSize(req)], Payload(req), trailing);
  }

  lemma {:induction false} Regroup(a: seq<Byte>, b: seq<Byte>, c: seq<Byte>, d: seq<Byte>, e: seq<Byte>)
    ensures (((a + b) + c) + d) + e == a + (b + ((c + d) + e))
    ensures (((a + b) + c) + d) + e == (a + b) + ((c + d) + e)
  {
  }

  lemma {:induction false} CoilsRoundTrip(req: Request, trailing: seq<Byte>)
    requires req.WriteMultipleCoils? && FitsPdu(req)
    ensures DecodedCoils(Fields(req, trailing)) == if InRange(req) then Ok(req) else Err(InvalidData)
  {
    hide BeBytes, BeU16, CeilDiv8, Serial, PackCoils, ReadRange, ReadPayload;
    CeilDiv8Covers(|req.coils|);
    var n, size, bytes, d := |req.coils|, CeilDiv8(|req.coils|), PackCoils(req.coils), Fields(req, trailing);
    RangeFields(d, req.addr, n, [size] + bytes + trailing, MAX_COILS);
    PayloadFields(d[4..], size, bytes, trailing);
    UnpackPacked(req.coils);
    assert Serial(bytes)[..n] == req.coils;
  }

  lemma {:induction false} RegistersRoundTrip(req: Request, trailing: seq<Byte>)
    requires req.WriteMultipleRegisters? && FitsPdu(req)
    ensures DecodedRegisters(Fields(req, trailing)) == if InRange(req) then Ok(req) else Err(InvalidData)
  {
    hide BeBytes, BeU16, PackWords, UnpackWords, ReadRange, ReadPayload;
    var n, bytes, d := |req.words|, PackWords(req.words), Fields(req, trailing);
    RangeFields(d, req.addr, n, [2 * n] + bytes + trailing, MAX_REGISTERS);
    PayloadFields(d[4..], 2 * n, bytes, trailing);
    UnpackPackedWords(req.words);
  }

  lemma {:induction false} ReadWriteRoundTrip(req: Request, trailing: seq<Byte>)
    requires req.ReadWriteMultipleRegisters? && FitsPdu(req)
    ensures DecodedReadWrite(Fields(req, trailing)) == if InRange(req) then Ok(req) else Err(InvalidData)
  {
    hide BeBytes, BeU16, PackWords, UnpackWords, ReadRange, ReadPayload;
    var n, bytes, d := |req.words|, PackWords(req.words), Fields(req, trailing);
    var after := [2 * n] + bytes + trailing;
    Regroup(BeBytes(req.addr), BeBytes(req.qty), BeBytes(req.writeAddr), BeBytes(n), after);
    RangeFields(d, req.addr, req.qty, BeBytes(req.writeAddr) + BeBytes(n) + after, MAX_REGISTERS);
    RangeFields(d[4..], req.writeAddr, n, after, MAX_REGISTERS);
    assert d[4..][4..] == d[8..];
    PayloadFields(d[8..], 2 * n, bytes, trailing);
    UnpackPackedWords(req.words);
  }

  // ── From the wire back to the wire ───────────────────────────────────────

  /** A PDU with the padding bits of its coil payload, if it has one, cleared. */
  function CanonicalPdu(req: Request, pdu: seq<Byte>): seq<Byte>
    requires |pdu| == RequestLength(req)
  {
    if req.WriteMultipleCoils? then pdu[..6] + ClearPadding(pdu[6..], |req.coils|) else pdu
  }

  /** The request is in range and its encoding is the part of the PDU it was read from, up to padding bits. */
  ghost predicate Reencodes(req: Request, pdu: seq<Byte>) {
    && InRange(req)
    && RequestLength(req) <= |pdu|
    && Encoded(req) == Encoding(true, CanonicalPdu(req, pdu[..RequestLength(req)]))
  }

  lemma {:induction false} SplitFields(d: seq<Byte>)
    requires |d| >= 4
    ensures BeBytes(BeU16(d[0], d[1])) + BeBytes(BeU16(d[2], d[3])) == d[..4]
  {
    BeBytesOfBe(d[0], d[1]);
    BeBytesOfBe(d[2], d[3]);
  }

  /** What the decoder accepts is in range, and re-encoding it gives the consumed bytes up to padding bits. */
  lemma {:induction false} RequestReencodes(pdu: seq<Byte>)
    requires DecodedPdu(pdu).Ok?
    ensures Reencodes(DecodedPdu(pdu).value, pdu)
    ensures FitsPdu(DecodedPdu(pdu).value) ==> EncodedInto(DecodedPdu(pdu).value) == Encoded(DecodedPdu(pdu).value)
  {
    hide BeU16, BeBytes, DecodedCoils, DecodedRegisters, DecodedReadWrite, CanonicalPdu;
    var req, d := DecodedPdu(pdu).value, pdu[1..];
    EncoderLimits(req);
    assert pdu == [pdu[0]] + d;
    if req.WriteMultipleCoils? {
      CoilsReencode(d);
    } else if req.WriteMultipleRegisters? {
      RegistersReencode(d);
    } else if req.ReadWriteMultipleRegisters? {
      ReadWriteReencode(d);
    } else {
      FixedReencode(pdu);
    }
  }

  lemma {:induction false} FixedReencode(pdu: seq<Byte>)
    requires DecodedPdu(pdu).Ok? && !HasPayload(DecodedPdu(pdu).value)
    ensures Reencodes(DecodedPdu(pdu).value, pdu)
  {
    hide BeU16, BeBytes, DecodedCoils, DecodedRegisters, DecodedReadWrite;
    var req, d := DecodedPdu(pdu).value, pdu[1..];
    SplitFields(d);
    if req.MaskWriteRegister? {
      BeBytesOfBe(d[4], d[5]);
      assert pdu[..7] == [22] + (d[..4] + d[4..6]);
    } else {
      assert pdu[..5] == [pdu[0]] + d[..4];
    }
  }

  // Accepted sized requests, taken apart: the consumed bytes are the head, the byte count and the payload bytes.

  lemma {:induction false} CeilDiv8Covers(n: nat)
    ensures n <= 8 * CeilDiv8(n) < n + 8
  {
  }

  lemma {:induction false} CoilsShape(d: seq<Byte>) returns (bytes: seq<Byte>)
    requires DecodedCoils(d).Ok?
    ensures var req := DecodedCoils(d).value;
            && InRange(req) && |bytes| == PayloadSize(req) <= 255 && req.coils == Serial(bytes)[..|req.coils|]
            && |d| >= 5 + |bytes| && d[..5 + |bytes|] == Prefix(req) + [|bytes|] + bytes
  {
    hide BeU16, BeBytes, CeilDiv8, Serial;
    var n := BeU16(d[2], d[3]);
    bytes := ReadPayload(d[4..], CeilDiv8(n)).value;
    CeilDiv8Covers(n);
    SplitFields(d);
    assert d[..5 + |bytes|] == d[..4] + [|bytes|] + bytes;
  }

  lemma {:induction false} RegistersShape(d: seq<Byte>) returns (bytes: seq<Byte>)
    requires DecodedRegisters(d).Ok?
    ensures var req := DecodedRegisters(d).value;
            && InRange(req) && |bytes| == PayloadSize(req) <= 255 && req.words == UnpackWords(bytes)
            && |d| >= 5 + |bytes| && d[..5 + |bytes|] == Prefix(req) + [|bytes|] + bytes
  {
    hide BeU16, BeBytes, UnpackWords;
    var n := BeU16(d[2], d[3]);
    bytes := ReadPayload(d[4..], 2 * n).value;
    SplitFields(d);
    assert d[..5 + |bytes|] == d[..4] + [|bytes|] + bytes;
  }

  lemma {:induction false} ReadWriteShape(d: seq<Byte>) returns (bytes: seq<Byte>)
    requires DecodedReadWrite(d).Ok?
    ensures var req := DecodedReadWrite(d).value;
            && InRange(req) && |bytes| == PayloadSize(req) <= 255 && req.words == UnpackWords(bytes)
            && |d| >= 9 + |bytes| && d[..9 + |bytes|] == Prefix(req) + [|bytes|] + bytes
  {
    hide BeU16, BeBytes, UnpackWords;
    var n := BeU16(d[4..][2], d[4..][3]);
    bytes := ReadPayload(d[8..], 2 * n).value;
    SplitFields(d);
    SplitFields(d[4..]);
    assert d[..9 + |bytes|] == (d[..4] + d[4..][..4]) + [|bytes|] + bytes;
  }

  lemma {:induction false} CoilsReencode(d: seq<Byte>)
    requires DecodedCoils(d).Ok?
    ensures Reencodes(DecodedCoils(d).value, [15] + d)
  {
    hide Serial, PackCoils, CeilDiv8, ReadRange, ReadPayload, BeBytes, Prefix;
    var req := DecodedCoils(d).value;
    var bytes := CoilsShape(d);
    PackUnpacked(bytes, |req.coils|);
    Reassemble(req, d, bytes);
    SplitHead(Head(req) + [|bytes|], bytes);
  }

  lemma {:induction false} RegistersReencode(d: seq<Byte>)
    requires DecodedRegisters(d).Ok?
    ensures Reencodes(DecodedRegisters(d).value, [16] + d)
  {
    var bytes := RegistersShape(d);
    PackUnpackedWords(bytes);
    Reassemble(DecodedRegisters(d).value, d, bytes);
  }

  lemma {:induction false} ReadWriteReencode(d: seq<Byte>)
    requires DecodedReadWrite(d).Ok?
    ensures Reencodes(DecodedReadWrite(d).value, [23] + d)
  {
    var bytes := ReadWriteShape(d);
    PackUnpackedWords(bytes);
    Reassemble(DecodedReadWrite(d).value, d, bytes);
  }

  lemma {:induction false} Reassemble(req: Request, d: seq<Byte>, bytes: seq<Byte>)
    requires HasPayload(req) && |bytes| == PayloadSize(req) <= 255
    requires RequestLength(req) <= 1 + |d| && d[..RequestLength(req) - 1] == Prefix(req) + [|bytes|] + bytes
    ensures ([RequestFunction(req)] + d)[..RequestLength(req)] == Head(req) + [|bytes|] + bytes
  {
    var fc, n := [RequestFunction(req)], RequestLength(req);
    assert (fc + d)[..n] == fc + d[..n - 1];
  }

  lemma {:induction false} SplitHead(head: seq<Byte>, tail: seq<Byte>)
    ensures (head + tail)[..|head|] == head && (head + tail)[|head|..] == tail
  {
  }

  // ── Truncated requests ───────────────────────────────────────────────────

  lemma {:induction false} RangePrefix(d: seq<Byte>, more: seq<Byte>, max: int)
    requires |d| >= 4
    ensures ReadRange(d + more, max) == ReadRange(d, max)
  {
    hide BeU16;
  }

  lemma {:induction false} PayloadPrefix(d: seq<Byte>, more: seq<Byte>, size: nat)
    requires ReadPayload(d, size).Ok?
    ensures ReadPayload(d + more, size) == ReadPayload(d, size)
  {
    assert (d + more)[1..1 + size] == d[1..1 + size];
  }

  /** Bytes behind a request do not change how it decodes. */
  lemma {:induction false} DecodedPrefix(pdu: seq<Byte>, more: seq<Byte>)
    requires DecodedPdu(pdu).Ok?
    ensures DecodedPdu(pdu + more) == DecodedPdu(pdu)
  {
    hide BeU16, Serial, UnpackWords, ReadRange, ReadPayload, CeilDiv8;
    var d := pdu[1..];
    assert (pdu + more)[1..] == d + more;
    RangeNeedsFour(d);
    if |d| >= 4 {
      RangePrefix(d, more, MAX_COILS);
      RangePrefix(d, more, MAX_REGISTERS);
      var after := d[4..];
      assert (d + more)[4..] == after + more;
      if pdu[0] == 15 {
        PayloadPrefix(after, more, CeilDiv8(ReadRange(d, MAX_COILS).value.1));
      } else if pdu[0] == 16 {
        PayloadPrefix(after, more, 2 * ReadRange(d, MAX_REGISTERS).value.1);
      } else if pdu[0] == 23 {
        RangeNeedsFour(after);
        RangePrefix(after, more, MAX_REGISTERS);
        assert (d + more)[8..] == d[8..] + more;
        PayloadPrefix(d[8..], more, 2 * ReadRange(after, MAX_REGISTERS).value.1);
      }
    }
  }

  lemma {:induction false} RangeNeedsFour(d: seq<Byte>)
    ensures |d| < 4 ==> ReadRange(d, MAX_COILS).Err? && ReadRange(d, MAX_REGISTERS).Err?
  {
  }

  /** An encoded request that has lost bytes at its end is no request any more. */
  lemma {:induction false} TruncatedRefused(req: Request, n: nat)
    requires EncodedInto(req).ok && InRange(req) && n < |EncodedInto(req).appended|
    ensures DecodedPdu(EncodedInto(req).appended[..n]).Err?
  {
    hide Decoded, EncodedInto, InRange;
    var pdu := EncodedInto(req).appended;
    EncoderLimits(req);
    NotDisconnect(req);
    RequestRoundTrip(req, []);
    assert pdu + [] == pdu && pdu[..n] + pdu[n..] == pdu;
    if DecodedPdu(pdu[..n]).Ok? {
      DecodedPrefix(pdu[..n], pdu[n..]);
      RequestReencodes(pdu[..n]);
      assert false;
    }
  }

  lemma {:induction false} NotDisconnect(req: Request)
    requires InRange(req)
    ensures !req.Disconnect?
  {
  }
}
