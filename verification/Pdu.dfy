/** Requests, responses and exceptions, and the payload packing the two codecs share (`src/frame.rs`). */
module Pdu {
  import opened Bits
  import opened Wire

  const MAX_PDU_SIZE := 253
  const MAX_COILS := 2000
  const MAX_REGISTERS := 125

  datatype ErrorKind = InvalidData | UnexpectedEof

  datatype ExceptionCode =
    | IllegalFunction
    | IllegalDataAddress
    | IllegalDataValue
    | ServerDeviceFailure
    | Acknowledge
    | ServerDeviceBusy
    | NegativeAcknowledge
    | MemoryParityError
    | GatewayPathUnavailable
    | GatewayTargetDeviceFailedToRespond
    | Custom(code: Byte)

  datatype Request =
    | ReadCoils(addr: U16, qty: U16)
    | ReadDiscreteInputs(addr: U16, qty: U16)
    | ReadHoldingRegisters(addr: U16, qty: U16)
    | ReadInputRegisters(addr: U16, qty: U16)
    | WriteSingleCoil(addr: U16, on: bool)
    | WriteSingleRegister(addr: U16, word: U16)
    | WriteMultipleCoils(addr: U16, coils: seq<bool>)
    | WriteMultipleRegisters(addr: U16, words: seq<U16>)
    | ReadWriteMultipleRegisters(addr: U16, qty: U16, writeAddr: U16, words: seq<U16>)
    | MaskWriteRegister(addr: U16, andMask: U16, orMask: U16)
    | Diagnostic(subFunction: U16, word: U16)
    | Disconnect

  datatype Response =
    | ReadCoils(bits: seq<bool>)
    | ReadDiscreteInputs(bits: seq<bool>)
    | ReadHoldingRegisters(words: seq<U16>)
    | ReadInputRegisters(words: seq<U16>)
    | WriteSingleCoil(addr: U16, on: bool)
    | WriteSingleRegister(addr: U16, word: U16)
    | WriteMultipleCoils(addr: U16, qty: U16)
    | WriteMultipleRegisters(addr: U16, qty: U16)
    | ReadWriteMultipleRegisters(words: seq<U16>)
    | MaskWriteRegister(addr: U16, andMask: U16, orMask: U16)
    | Diagnostic(subFunction: U16, word: U16)
    | Exception(fc: Byte, exception: ExceptionCode)

  /** What an encoder did: whether it accepted the message, and the bytes it left behind the old buffer content. */
  datatype Encoding = Encoding(ok: bool, appended: seq<Byte>)

  function RequestFunction(req: Request): Byte {
    match req
    case ReadCoils(_, _) => 1
    case ReadDiscreteInputs(_, _) => 2
    case ReadHoldingRegisters(_, _) => 3
    case ReadInputRegisters(_, _) => 4
    case WriteSingleCoil(_, _) => 5
    case WriteSingleRegister(_, _) => 6
    case ReadWriteMultipleRegisters(_, _, _, _) => 23
    case WriteMultipleCoils(_, _) => 15
    case WriteMultipleRegisters(_, _) => 16
    case MaskWriteRegister(_, _, _) => 22
    case Diagnostic(_, _) => 8
    case Disconnect => 0
  }

  // `fc | 0x80` and `fc & 0x7F`.

  function SetExceptionBit(fc: Byte): Byte {
    if fc < 0x80 then fc + 0x80 else fc
  }

  function ClearExceptionBit(fc: Byte): Byte {
    fc % 0x80
  }

  function ResponseFunction(rsp: Response): Byte {
    match rsp
    case ReadCoils(_) => 1
    case ReadDiscreteInputs(_) => 2
    case ReadHoldingRegisters(_) => 3
    case ReadInputRegisters(_) => 4
    case WriteSingleCoil(_, _) => 5
    case WriteSingleRegister(_, _) => 6
    case WriteMultipleCoils(_, _) => 15
    case WriteMultipleRegisters(_, _) => 16
    case ReadWriteMultipleRegisters(_) => 23
    case MaskWriteRegister(_, _, _) => 22
    case Diagnostic(_, _) => 8
    case Exception(fc, _) => SetExceptionBit(fc)
  }

  predicate IsKnownFunctionCode(b: Byte) {
    var base := ClearExceptionBit(b);
    1 <= base <= 6 || base == 8 || base == 15 || base == 16 || base == 22 || base == 23
  }

  function ExceptionOf(code: Byte): ExceptionCode {
    if code == 1 then IllegalFunction
    else if code == 2 then IllegalDataAddress
    else if code == 3 then IllegalDataValue
    else if code == 4 then ServerDeviceFailure
    else if code == 5 then Acknowledge
    else if code == 6 then ServerDeviceBusy
    else if code == 7 then NegativeAcknowledge
    else if code == 8 then MemoryParityError
    else if code == 10 then GatewayPathUnavailable
    else if code == 11 then GatewayTargetDeviceFailedToRespond
    else Custom(code)
  }

  function CodeOf(e: ExceptionCode): Byte {
    match e
    case IllegalFunction => 1
    case IllegalDataAddress => 2
    case IllegalDataValue => 3
    case ServerDeviceFailure => 4
    case Acknowledge => 5
    case ServerDeviceBusy => 6
    case NegativeAcknowledge => 7
    case MemoryParityError => 8
    case GatewayPathUnavailable => 10
    case GatewayTargetDeviceFailedToRespond => 11
    case Custom(n) => n
  }

  // ── Coils in bytes, eight to a byte ──────────────────────────────────────

  function CeilDiv8(n: nat): nat {
    (n + 7) / 8
  }

  /** One chunk of at most eight coils as a byte; missing coils are zero bits. */
  function PackByte(chunk: seq<bool>): (b: Byte)
    requires |chunk| <= 8
    ensures ByteBits(b) == chunk + Zeros(8 - |chunk|)
  {
    PackByteBits(chunk);
    FromBits(chunk)
  }

  lemma {:induction false} PackByteBits(chunk: seq<bool>)
    requires |chunk| <= 8
    ensures FromBits(chunk) < 256
    ensures ToBits(FromBits(chunk), 8) == chunk + Zeros(8 - |chunk|)
  {
    FromBitsPadded(chunk, 8 - |chunk|);
    ByteFromValue(chunk + Zeros(8 - |chunk|), FromBits(chunk));
  }

  function ChunkSize(left: nat): nat {
    if left < 8 then left else 8
  }

  function PackCoils(coils: seq<bool>): (bytes: seq<Byte>)
    ensures |bytes| == CeilDiv8(|coils|)
  {
    if coils == [] then []
    else var n := ChunkSize(|coils|); [PackByte(coils[..n])] + PackCoils(coils[n..])
  }

  function Padding(count: nat): nat {
    8 * CeilDiv8(count) - count
  }

  /** The low `k` bits of a byte, the others cleared. */
  function KeepLow(b: Byte, k: nat): Byte
    requires k <= 8
  {
    PackByte(ByteBits(b)[..k])
  }

  /** The byte string that carries `count` coils, the unused high bits of its last byte cleared. */
  function ClearPadding(bytes: seq<Byte>, count: nat): (cleared: seq<Byte>)
    requires |bytes| == CeilDiv8(count)
    ensures |cleared| == |bytes|
  {
    if bytes == [] then [] else bytes[..|bytes| - 1] + [KeepLow(bytes[|bytes| - 1], 8 - Padding(count))]
  }

  lemma {:induction false} ChunkBits(chunk: seq<bool>, rest: seq<bool>, bytes: seq<Byte>, pad: nat)
    requires |chunk| <= 8 && (|chunk| == 8 || (rest == [] && pad == 0))
    requires Serial(bytes) == rest + Zeros(pad)
    ensures Serial([PackByte(chunk)] + bytes) == (chunk + rest) + Zeros(8 - |chunk| + pad)
  {
    SerialCons(PackByte(chunk), bytes);
  }

  lemma {:induction false} PaddingStep(count: nat, n: nat)
    requires count > 0 && n == ChunkSize(count)
    ensures CeilDiv8(count) == 1 + CeilDiv8(count - n)
    ensures Padding(count) == 8 - n + Padding(count - n)
    ensures n == 8 || Padding(count - n) == 0
  {
    if count < 8 {
      assert CeilDiv8(count) == 1 && CeilDiv8(0) == 0;
    } else {
      assert CeilDiv8(count) == 1 + CeilDiv8(count - 8);
    }
  }

  /** Unpacking packed coils gives them back, followed by the padding bits as false. */
  lemma {:induction false} UnpackPacked(coils: seq<bool>)
    ensures Serial(PackCoils(coils)) == coils + Zeros(Padding(|coils|))
  {
    if coils == [] {
      assert Serial([]) == [];
    } else {
      var n := ChunkSize(|coils|);
      var rest := coils[n..];
      UnpackPacked(rest);
      PaddingStep(|coils|, n);
      ChunkBits(coils[..n], rest, PackCoils(rest), Padding(|rest|));
      assert coils[..n] + rest == coils;
    }
  }

  /** Packing unpacked coils gives the bytes back up to their padding bits. */
  lemma {:induction false} PackUnpacked(bytes: seq<Byte>, count: nat)
    requires |bytes| == CeilDiv8(count)
    ensures PackCoils(Serial(bytes)[..count]) == ClearPadding(bytes, count)
  {
    if bytes != [] {
      var n, coils := ChunkSize(count), Serial(bytes)[..count];
      assert coils[..n] == ByteBits(bytes[0])[..n];
      assert coils[n..] == Serial(bytes[1..])[..count - n];
      PackUnpacked(bytes[1..], count - n);
      if count > 8 {
        KeepAll(bytes[0]);
        assert bytes[..|bytes| - 1] == [bytes[0]] + bytes[1..][..|bytes| - 2];
      }
    }
  }

  lemma {:induction false} KeepAll(b: Byte)
    ensures KeepLow(b, 8) == b
  {
    assert ByteBits(b)[..8] == ByteBits(b);
    ByteBitsInjective(KeepLow(b, 8), b);
  }

  // ── Registers in bytes, two bytes each ───────────────────────────────────

  function PackWords(words: seq<U16>): (bytes: seq<Byte>)
    ensures |bytes| == 2 * |words|
  {
    if words == [] then [] else BeBytes(words[0]) + PackWords(words[1..])
  }

  function UnpackWords(bytes: seq<Byte>): (words: seq<U16>)
    requires |bytes| % 2 == 0
    ensures |words| == |bytes| / 2
  {
    if bytes == [] then [] else [BeU16(bytes[0], bytes[1])] + UnpackWords(bytes[2..])
  }

  lemma {:induction false} UnpackPackedWords(words: seq<U16>)
    ensures UnpackWords(PackWords(words)) == words
  {
    if words != [] {
      UnpackPackedWords(words[1..]);
      assert PackWords(words)[2..] == PackWords(words[1..]);
    }
  }

  lemma {:induction false} PackUnpackedWords(bytes: seq<Byte>)
    requires |bytes| % 2 == 0
    ensures PackWords(UnpackWords(bytes)) == bytes
  {
    if bytes != [] {
      PackUnpackedWords(bytes[2..]);
      assert UnpackWords(bytes)[1..] == UnpackWords(bytes[2..]);
      BeBytesOfBe(bytes[0], bytes[1]);
      assert bytes == [bytes[0], bytes[1]] + bytes[2..];
    }
  }

  // ── The packing loops ────────────────────────────────────────────────────

  /** Fold one chunk of at most eight coils into a byte. */
  method PackChunk(chunk: seq<bool>) returns (byte: Byte)
    requires |chunk| <= 8
    ensures byte == PackByte(chunk)
  {
    var acc: nat := 0;
    for i := 0 to |chunk|
      invariant acc == FromBits(chunk[..i])
    {
      assert chunk[..i + 1] == chunk[..i] + [chunk[i]];
      FromBitsAppend(chunk[..i], [chunk[i]]);
      if chunk[i] {
        acc := acc + Pow2(i);
      }
    }
    assert chunk[..|chunk|] == chunk;
    PackByteBits(chunk);
    byte := acc;
  }

  lemma {:induction false} PackCoilsFrom(coils: seq<bool>, i: nat, next: nat)
    requires i < |coils| && next == i + ChunkSize(|coils| - i)
    ensures PackCoils(coils[i..]) == [PackByte(coils[i..next])] + PackCoils(coils[next..])
  {
    assert coils[i..][..next - i] == coils[i..next];
    assert coils[i..][next - i..] == coils[next..];
  }

  method PutCoils(buf: BytesMut, coils: seq<bool>)
    modifies buf
    ensures buf.data == old(buf.data) + PackCoils(coils)
  {
    var i := 0;
    while i < |coils|
      invariant 0 <= i <= |coils|
      invariant buf.data + PackCoils(coils[i..]) == old(buf.data) + PackCoils(coils)
      decreases |coils| - i
    {
      var next := i + ChunkSize(|coils| - i);
      PackCoilsFrom(coils, i, next);
      var byte := PackChunk(coils[i..next]);
      buf.PutU8(byte);
      i := next;
    }
  }

  method PutWords(buf: BytesMut, words: seq<U16>)
    modifies buf
    ensures buf.data == old(buf.data) + PackWords(words)
  {
    for i := 0 to |words|
      invariant buf.data + PackWords(words[i..]) == old(buf.data) + PackWords(words)
    {
      assert words[i..][0] == words[i] && words[i..][1..] == words[i + 1..];
      buf.PutU16(words[i]);
    }
  }

  /** Read `byteCount` bytes of coils, stopping at `qty` coils. */
  method TakeCoils(cur: Cursor, byteCount: nat, qty: nat) returns (coils: seq<bool>)
    requires byteCount <= |cur.rest| && byteCount == CeilDiv8(qty)
    modifies cur
    ensures coils == Serial(old(cur.rest)[..byteCount])[..qty]
    ensures cur.rest == old(cur.rest)[byteCount..]
  {
    ghost var all := Serial(cur.rest[..byteCount]);
    coils := [];
    for i := 0 to byteCount
      invariant cur.rest == old(cur.rest)[i..]
      invariant coils == all[..if 8 * i < qty then 8 * i else qty]
    {
      SerialAt(old(cur.rest)[..byteCount], i);
      var byte := cur.GetU8();
      var j := 0;
      while j < 8
        invariant 0 <= j <= 8 && 8 * i + j < qty
        invariant coils == all[..8 * i + j]
      {
        assert all[8 * i..8 * i + 8][j] == all[8 * i + j];
        coils := coils + [ByteBits(byte)[j]];
        j := j + 1;
        if |coils| >= qty {
          break;
        }
      }
    }
  }

  lemma {:induction false} SerialAt(bytes: seq<Byte>, i: nat)
    requires i < |bytes|
    ensures Serial(bytes)[8 * i..8 * i + 8] == ByteBits(bytes[i])
  {
    if i > 0 {
      SerialAt(bytes[1..], i - 1);
      assert Serial(bytes)[8 * i..8 * i + 8] == Serial(bytes[1..])[8 * (i - 1)..8 * (i - 1) + 8];
    }
  }

  method TakeWords(cur: Cursor, count: nat) returns (words: seq<U16>)
    requires 2 * count <= |cur.rest|
    modifies cur
    ensures words == UnpackWords(old(cur.rest)[..2 * count])
    ensures cur.rest == old(cur.rest)[2 * count..]
  {
    ghost var all := cur.rest[..2 * count];
    words := [];
    for i := 0 to count
      invariant cur.rest == old(cur.rest)[2 * i..]
      invariant words + UnpackWords(all[2 * i..]) == UnpackWords(all)
    {
      assert all[2 * i..][2..] == all[2 * (i + 1)..];
      var word := cur.GetU16();
      words := words + [word];
    }
  }
}
