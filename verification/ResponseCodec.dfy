/** The response PDU codec of `src/frame.rs`. */
module ResponseCodec {
  import opened Bits
  import opened Wire
  import opened Pdu

  // ── What the encoder writes ──────────────────────────────────────────────

  /** The byte count a response announces; fixed-size responses announce none. */
  function ByteCount(rsp: Response): nat {
    match rsp
    case ReadCoils(bits) => CeilDiv8(|bits|)
    case ReadDiscreteInputs(bits) => CeilDiv8(|bits|)
    case ReadHoldingRegisters(words) => 2 * |words|
    case ReadInputRegisters(words) => 2 * |words|
    case ReadWriteMultipleRegisters(words) => 2 * |words|
    case _ => 0
  }

  predicate CarriesBits(rsp: Response) {
    rsp.ReadCoils? || rsp.ReadDiscreteInputs?
  }

  predicate CarriesWords(rsp: Response) {
    rsp.ReadHoldingRegisters? || rsp.ReadInputRegisters? || rsp.ReadWriteMultipleRegisters?
  }

  function FixedBody(rsp: Response): seq<Byte>
    requires !CarriesBits(rsp) && !CarriesWords(rsp)
  {
    match rsp
    case WriteSingleCoil(addr, on) => BeBytes(addr) + BeBytes(if on then 0xFF00 else 0)
    case WriteSingleRegister(addr, word) => BeBytes(addr) + BeBytes(word)
    case WriteMultipleCoils(addr, qty) => BeBytes(addr) + BeBytes(qty)
    case WriteMultipleRegisters(addr, qty) => BeBytes(addr) + BeBytes(qty)
    case MaskWriteRegister(addr, andMask, orMask) => BeBytes(addr) + BeBytes(andMask) + BeBytes(orMask)
    case Diagnostic(subFunction, word) => BeBytes(subFunction) + BeBytes(word)
    case Exception(_, exception) => [CodeOf(exception)]
  }

  /** The inner encoder; on a byte count that does not fit a byte, the register branch has already written its code. */
  function Encoded(rsp: Response): Encoding {
    var fc, size := ResponseFunction(rsp), ByteCount(rsp);
    if CarriesBits(rsp) then
      if size > 255 then Encoding(false, []) else Encoding(true, [fc, size] + PackCoils(rsp.bits))
    else if CarriesWords(rsp) then
      if size > 255 then Encoding(false, [fc]) else Encoding(true, [fc, size] + PackWords(rsp.words))
    else
      Encoding(true, [fc] + FixedBody(rsp))
  }

  /** The public encoder: byte counts are checked first, and an oversized PDU is taken back. */
  function EncodedInto(rsp: Response): Encoding {
    if ByteCount(rsp) > 255 then Encoding(false, [])
    else
      var e := Encoded(rsp);
      if e.ok && |e.appended| > MAX_PDU_SIZE then Encoding(false, []) else e
  }

  method EncodeBits(fc: Byte, bits: seq<bool>, buf: BytesMut) returns (ok: bool)
    modifies buf
    ensures ok == (CeilDiv8(|bits|) <= 255)
    ensures buf.data == old(buf.data) + if ok then [fc, CeilDiv8(|bits|)] + PackCoils(bits) else []
  {
    hide CeilDiv8, PackCoils;
    if CeilDiv8(|bits|) > 255 {
      return false;
    }
    buf.PutU8(fc);
    buf.PutU8(CeilDiv8(|bits|));
    PutCoils(buf, bits);
    ok := true;
  }

  method EncodeWords(fc: Byte, words: seq<U16>, buf: BytesMut) returns (ok: bool)
    modifies buf
    ensures ok == (2 * |words| <= 255)
    ensures buf.data == old(buf.data) + if ok then [fc, 2 * |words|] + PackWords(words) else [fc]
  {
    hide PackWords;
    buf.PutU8(fc);
    if |words| * 2 > 255 {
      return false;
    }
    buf.PutU8(|words| * 2);
    PutWords(buf, words);
    ok := true;
  }

  method PutFields(fc: Byte, first: U16, second: U16, buf: BytesMut)
    modifies buf
    ensures buf.data == old(buf.data) + ([fc] + (BeBytes(first) + BeBytes(second)))
  {
    hide BeBytes;
    buf.PutU8(fc);
    buf.PutU16(first);
    buf.PutU16(second);
  }

  method EncodeFixed(rsp: Response, buf: BytesMut)
    requires !CarriesBits(rsp) && !CarriesWords(rsp)
    modifies buf
    ensures buf.data == old(buf.data) + ([ResponseFunction(rsp)] + FixedBody(rsp))
  {
    hide BeBytes;
    match rsp {
      case WriteSingleCoil(addr, on) => PutFields(5, addr, if on then 0xFF00 else 0, buf);
      case WriteSingleRegister(addr, word) => PutFields(6, addr, word, buf);
      case WriteMultipleCoils(addr, qty) => PutFields(15, addr, qty, buf);
      case WriteMultipleRegisters(addr, qty) => PutFields(16, addr, qty, buf);
      case MaskWriteRegister(addr, andMask, orMask) => PutFields(22, addr, andMask, buf); buf.PutU16(orMask);
      case Diagnostic(subFunction, word) => PutFields(8, subFunction, word, buf);
      case Exception(fc, exception) => buf.PutU8(SetExceptionBit(fc)); buf.PutU8(CodeOf(exception));
    }
  }

  method EncodeResponse(rsp: Response, buf: BytesMut) returns (ok: bool)
    modifies buf
    ensures ok == Encoded(rsp).ok
    ensures buf.data == old(buf.data) + Encoded(rsp).appended
  {
    hide CeilDiv8, PackCoils, PackWords, FixedBody;
    if CarriesBits(rsp) {
      ok := EncodeBits(ResponseFunction(rsp), rsp.bits, buf);
    } else if CarriesWords(rsp) {
      ok := EncodeWords(ResponseFunction(rsp), rsp.words, buf);
    } else {
      EncodeFixed(rsp, buf);
      ok := true;
    }
  }

  /** On error the buffer is left as it was: the byte counts are validated before anything is written. */
  method EncodeResponseInto(rsp: Response, buf: BytesMut) returns (ok: bool)
    modifies buf
    ensures ok <==> FitsPdu(rsp)
    ensures ok ==> buf.data == old(buf.data) + EncodedInto(rsp).appended
    ensures !ok ==> buf.data == old(buf.data)
  {
    EncoderLimits(rsp);
    if ByteCount(rsp) > 255 {
      return false;
    }
    var start := |buf.data|;
    ok := EncodeResponse(rsp, buf);
    if !ok {
      return false;
    }
    if |buf.data| - start > MAX_PDU_SIZE {
      buf.Truncate(start);
      return false;
    }
  }

  // ── What the decoder reads ───────────────────────────────────────────────

  // The byte count and that many bytes.
  function ReadCounted(d: seq<Byte>): (r: Result<seq<Byte>, ErrorKind>)
    ensures r.Ok? ==> |d| >= 1 && |r.value| == d[0] < |d| && r.value == d[1..1 + d[0]]
  {
    if |d| < 1 then Err(UnexpectedEof)
    else if |d| - 1 < d[0] then Err(UnexpectedEof)
    else Ok(d[1..1 + d[0]])
  }

  function ReadWords(d: seq<Byte>): Result<seq<U16>, ErrorKind> {
    if |d| < 1 then Err(UnexpectedEof)
    else if d[0] % 2 != 0 then Err(InvalidData)
    else
      var bytes :- ReadCounted(d);
      Ok(UnpackWords(bytes))
  }

  function ReadPair(d: seq<Byte>): Result<(U16, U16), ErrorKind> {
    if |d| < 4 then Err(UnexpectedEof) else Ok((BeU16(d[0], d[1]), BeU16(d[2], d[3])))
  }

  function Decoded(fc: Byte, d: seq<Byte>): Result<Response, ErrorKind> {
    if fc == 1 then
      var bytes :- ReadCounted(d);
      Ok(Response.ReadCoils(Serial(bytes)))
    else if fc == 2 then
      var bytes :- ReadCounted(d);
      Ok(Response.ReadDiscreteInputs(Serial(bytes)))
    else if fc == 3 then
      var words :- ReadWords(d);
      Ok(Response.ReadHoldingRegisters(words))
    else if fc == 4 then
      var words :- ReadWords(d);
      Ok(Response.ReadInputRegisters(words))
    else if fc == 5 then
      var (addr, word) :- ReadPair(d);
      Ok(Response.WriteSingleCoil(addr, word == 0xFF00))
    else if fc == 6 then
      var (addr, word) :- ReadPair(d);
      Ok(Response.WriteSingleRegister(addr, word))
    else if fc == 15 then
      var (addr, qty) :- ReadPair(d);
      Ok(Response.WriteMultipleCoils(addr, qty))
    else if fc == 16 then
      var (addr, qty) :- ReadPair(d);
      Ok(Response.WriteMultipleRegisters(addr, qty))
    else if fc == 22 then
      var (addr, andMask) :- ReadPair(d);
      if |d| < 6 then Err(UnexpectedEof) else Ok(Response.MaskWriteRegister(addr, andMask, BeU16(d[4], d[5])))
    else if fc == 23 then
      var words :- ReadWords(d);
      Ok(Response.ReadWriteMultipleRegisters(words))
    else if fc == 8 then
      var (subFunction, word) :- ReadPair(d);
      Ok(Response.Diagnostic(subFunction, word))
    else
      Err(InvalidData)
  }

  /** A response from a whole PDU: the top bit of the function code selects an exception. */
  function DecodedPdu(pdu: seq<Byte>): Result<Response, ErrorKind> {
    if pdu == [] then Err(InvalidData)
    else if pdu[0] >= 0x80 then
      if |pdu| < 2 then Err(InvalidData)
      else Ok(Response.Exception(ClearExceptionBit(pdu[0]), ExceptionOf(pdu[1])))
    else Decoded(pdu[0], pdu[1..])
  }

  method GetBits(cur: Cursor) returns (r: Result<seq<bool>, ErrorKind>)
    modifies cur
    ensures match ReadCounted(old(cur.rest))
            case Ok(bytes) => r == Ok(Serial(bytes))
            case Err(e) => r == Err(e)
  {
    if |cur.rest| < 1 {
      return Err(UnexpectedEof);
    }
    var byteCount := cur.GetU8();
    if |cur.rest| < byteCount {
      return Err(UnexpectedEof);
    }
    var n: nat := byteCount;
    WholeBytes(n);
    ghost var d := old(cur.rest);
    assert d[1..][..n] == d[1..1 + d[0]] && Serial(d[1..1 + d[0]])[..8 * n] == Serial(d[1..1 + d[0]]);
    var bits := TakeCoils(cur, n, 8 * n);
    return Ok(bits);
  }

  lemma {:induction false} WholeBytes(n: nat)
    ensures CeilDiv8(8 * n) == n
  {
  }

  method GetWords(cur: Cursor) returns (r: Result<seq<U16>, ErrorKind>)
    modifies cur
    ensures r == ReadWords(old(cur.rest))
  {
    if |cur.rest| < 1 {
      return Err(UnexpectedEof);
    }
    var byteCount := cur.GetU8();
    if byteCount % 2 != 0 {
      return Err(InvalidData);
    }
    if |cur.rest| < byteCount {
      return Err(UnexpectedEof);
    }
    var n: nat := byteCount / 2;
    ghost var d := old(cur.rest);
    assert byteCount == 2 * n && d[1..][..2 * n] == d[1..1 + d[0]];
    var words := TakeWords(cur, n);
    return Ok(words);
  }

  method GetPair(cur: Cursor) returns (r: Result<(U16, U16), ErrorKind>)
    modifies cur
    ensures r == ReadPair(old(cur.rest))
    ensures r.Ok? ==> |old(cur.rest)| >= 4 && cur.rest == old(cur.rest)[4..]
  {
    if |cur.rest| < 2 {
      return Err(UnexpectedEof);
    }
    var first := cur.GetU16();
    if |cur.rest| < 2 {
      return Err(UnexpectedEof);
    }
    var second := cur.GetU16();
    return Ok((first, second));
  }

  method DecodeResponse(fc: Byte, cur: Cursor) returns (r: Result<Response, ErrorKind>)
    modifies cur
    ensures r == Decoded(fc, old(cur.rest))
  {
    hide BeU16, Serial, ReadPair, ReadWords;
    if fc == 1 {
      var bits :- GetBits(cur);
      return Ok(Response.ReadCoils(bits));
    } else if fc == 2 {
      var bits :- GetBits(cur);
      return Ok(Response.ReadDiscreteInputs(bits));
    } else if fc == 3 {
      var words :- GetWords(cur);
      return Ok(Response.ReadHoldingRegisters(words));
    } else if fc == 4 {
      var words :- GetWords(cur);
      return Ok(Response.ReadInputRegisters(words));
    } else if fc == 5 {
      var pair :- GetPair(cur);
      return Ok(Response.WriteSingleCoil(pair.0, pair.1 == 0xFF00));
    } else if fc == 6 {
      var pair :- GetPair(cur);
      return Ok(Response.WriteSingleRegister(pair.0, pair.1));
    } else if fc == 15 {
      var pair :- GetPair(cur);
      return Ok(Response.WriteMultipleCoils(pair.0, pair.1));
    } else if fc == 16 {
      var pair :- GetPair(cur);
      return Ok(Response.WriteMultipleRegisters(pair.0, pair.1));
    } else if fc == 22 {
      var pair :- GetPair(cur);
      if |cur.rest| < 2 {
        return Err(UnexpectedEof);
      }
      var orMask := cur.GetU16();
      return Ok(Response.MaskWriteRegister(pair.0, pair.1, orMask));
    } else if fc == 23 {
      var words :- GetWords(cur);
      return Ok(Response.ReadWriteMultipleRegisters(words));
    } else if fc == 8 {
      var pair :- GetPair(cur);
      return Ok(Response.Diagnostic(pair.0, pair.1));
    } else {
      return Err(InvalidData);
    }
  }

  // ── Theorems ─────────────────────────────────────────────────────────────

  /** The largest payload the encoder accepts: 2008 coils or 125 registers. */
  predicate FitsPdu(rsp: Response) {
    (CarriesBits(rsp) ==> |rsp.bits| <= 2008) && (CarriesWords(rsp) ==> |rsp.words| <= 125)
  }

  lemma {:induction false} EncoderLimits(rsp: Response)
    ensures EncodedInto(rsp).ok <==> FitsPdu(rsp)
    ensures !EncodedInto(rsp).ok ==> EncodedInto(rsp).appended == []
    ensures EncodedInto(rsp).ok ==> EncodedInto(rsp) == Encoded(rsp) && 2 <= |EncodedInto(rsp).appended| <= MAX_PDU_SIZE
  {
  }

  /** What survives the wire: coils padded to whole bytes, exceptions with canonical code and masked function. */
  function Normal(rsp: Response): Response {
    match rsp
    case ReadCoils(bits) => Response.ReadCoils(bits + Zeros(Padding(|bits|)))
    case ReadDiscreteInputs(bits) => Response.ReadDiscreteInputs(bits + Zeros(Padding(|bits|)))
    case Exception(fc, exception) => Response.Exception(ClearExceptionBit(fc), ExceptionOf(CodeOf(exception)))
    case _ => rsp
  }

  lemma {:induction false} PairFields(d: seq<Byte>, first: U16, second: U16, after: seq<Byte>)
    requires d == BeBytes(first) + BeBytes(second) + after
    ensures ReadPair(d) == Ok((first, second)) && d[4..] == after
  {
  }

  lemma {:induction false} CountedFields(d: seq<Byte>, size: Byte, bytes: seq<Byte>, after: seq<Byte>)
    requires d == [size] + bytes + after && |bytes| == size
    ensures ReadCounted(d) == Ok(bytes)
  {
    assert d[1..1 + size] == bytes;
  }

  /** Every accepted response decodes to its normal form, whatever follows it on the wire. */
  lemma {:induction false} ResponseRoundTrip(rsp: Response, trailing: seq<Byte>)
    requires EncodedInto(rsp).ok
    ensures DecodedPdu(EncodedInto(rsp).appended + trailing) == Ok(Normal(rsp))
  {
    hide PackCoils, PackWords, CeilDiv8, Serial, BeBytes, ReadPair, ReadCounted, UnpackWords, FixedBody;
    EncoderLimits(rsp);
    var pdu := EncodedInto(rsp).appended + trailing;
    if CarriesBits(rsp) {
      var size, bytes := ByteCount(rsp), PackCoils(rsp.bits);
      assert pdu[1..] == [size] + bytes + trailing;
      CountedFields(pdu[1..], size, bytes, trailing);
      UnpackPacked(rsp.bits);
    } else if CarriesWords(rsp) {
      var size, bytes := ByteCount(rsp), PackWords(rsp.words);
      assert pdu[1..] == [size] + bytes + trailing;
      CountedFields(pdu[1..], size, bytes, trailing);
      UnpackPackedWords(rsp.words);
    } else {
      assert pdu[1..] == FixedBody(rsp) + trailing;
      FixedRoundTrip(rsp, trailing);
    }
  }

  lemma {:induction false} FixedRoundTrip(rsp: Response, trailing: seq<Byte>)
    requires !CarriesBits(rsp) && !CarriesWords(rsp)
    ensures DecodedPdu([ResponseFunction(rsp)] + (FixedBody(rsp) + trailing)) == Ok(Normal(rsp))
  {
    hide ReadPair, ReadWords, ReadCounted;
    var d := FixedBody(rsp) + trailing;
    assert ([ResponseFunction(rsp)] + d)[1..] == d;
    match rsp {
      case WriteSingleCoil(addr, on) => PairFields(d, addr, if on then 0xFF00 else 0, trailing);
      case WriteSingleRegister(addr, word) => PairFields(d, addr, word, trailing);
      case WriteMultipleCoils(addr, qty) => PairFields(d, addr, qty, trailing);
      case WriteMultipleRegisters(addr, qty) => PairFields(d, addr, qty, trailing);
      case MaskWriteRegister(addr, andMask, orMask) => PairFields(d, addr, andMask, BeBytes(orMask) + trailing);
      case Diagnostic(subFunction, word) => PairFields(d, subFunction, word, trailing);
      case Exception(_, _) =>
    }
  }

  /** The decoder only produces normal forms, so a second trip changes nothing. */
  lemma {:induction false} DecodedIsNormal(pdu: seq<Byte>)
    requires DecodedPdu(pdu).Ok?
    ensures Normal(DecodedPdu(pdu).value) == DecodedPdu(pdu).value
  {
    hide ReadPair, ReadWords, UnpackWords, BeU16;
    var rsp := DecodedPdu(pdu).value;
    if CarriesBits(rsp) {
      var bytes := ReadCounted(pdu[1..]).value;
      WholeBytes(|bytes|);
      assert rsp.bits + Zeros(0) == rsp.bits;
    }
  }
}
