/**
 Bytes, 16-bit fields and the two buffer types every Modbus transport is written against.
 Bytes and 16-bit values are range-constrained integers; wrap-around is always written out.
 */
module Wire {
  import opened Bits

  type Byte = x: int | 0 <= x < 0x100
  type U16 = x: int | 0 <= x < 0x1_0000

  datatype Option<+T> = None | Some(value: T)

  datatype Result<+T, +E> = Ok(value: T) | Err(error: E) {
    predicate IsFailure() {
      Err?
    }

    function PropagateFailure<U>(): Result<U, E>
      requires Err?
    {
      Err(error)
    }

    function Extract(): T
      requires Ok?
    {
      value
    }
  }

  // Big-endian 16-bit fields.

  function BeBytes(v: U16): seq<Byte> {
    [v / 256, v % 256]
  }

  function BeU16(hi: Byte, lo: Byte): U16 {
    hi * 256 + lo
  }

  lemma {:induction false} BeBytesOfBe(hi: Byte, lo: Byte)
    ensures BeBytes(BeU16(hi, lo)) == [hi, lo]
  {
  }

  // Bitwise operations on bytes and words go through their bits.

  function ByteBits(b: Byte): (bits: seq<bool>)
    ensures |bits| == 8
  {
    ToBits(b, 8)
  }

  function WordBits(w: U16): (bits: seq<bool>)
    ensures |bits| == 16
  {
    ToBits(w, 16)
  }

  function ByteFrom(bits: seq<bool>): (b: Byte)
    requires |bits| == 8
    ensures ByteBits(b) == bits
  {
    BitsFromBits(bits);
    Powers();
    FromBits(bits)
  }

  lemma {:induction false} ByteFromValue(bits: seq<bool>, n: nat)
    requires |bits| == 8 && FromBits(bits) == n
    ensures n < 256 && ToBits(n, 8) == bits
  {
    BitsFromBits(bits);
    Powers();
  }

  function WordFrom(bits: seq<bool>): (w: U16)
    requires |bits| == 16
    ensures WordBits(w) == bits
  {
    BitsFromBits(bits);
    Powers();
    FromBits(bits)
  }

  lemma {:induction false} ByteBitsInjective(a: Byte, b: Byte)
    requires ByteBits(a) == ByteBits(b)
    ensures a == b
  {
    Powers();
    FromBitsBits(a, 8);
    FromBitsBits(b, 8);
  }

  lemma {:induction false} WordBitsInjective(a: U16, b: U16)
    requires WordBits(a) == WordBits(b)
    ensures a == b
  {
    Powers();
    FromBitsBits(a, 16);
    FromBitsBits(b, 16);
  }

  function XorByte(a: Byte, b: Byte): Byte {
    ByteFrom(Xor(ByteBits(a), ByteBits(b)))
  }

  function XorWord(a: U16, b: U16): U16 {
    WordFrom(Xor(WordBits(a), WordBits(b)))
  }

  /** The bits of a byte string: bytes in order, each least significant bit first. */
  function Serial(data: seq<Byte>): (bits: seq<bool>)
    ensures |bits| == 8 * |data|
  {
    if data == [] then [] else ByteBits(data[0]) + Serial(data[1..])
  }

  lemma {:induction false} SerialCons(b: Byte, rest: seq<Byte>)
    ensures Serial([b] + rest) == ByteBits(b) + Serial(rest)
  {
    assert ([b] + rest)[1..] == rest;
  }

  lemma {:induction false} SerialAppend(a: seq<Byte>, b: seq<Byte>)
    ensures Serial(a + b) == Serial(a) + Serial(b)
  {
    if a == [] {
      assert a + b == b;
    } else {
      assert (a + b)[1..] == a[1..] + b;
      SerialAppend(a[1..], b);
    }
  }

  lemma {:induction false} SerialInjective(a: seq<Byte>, b: seq<Byte>)
    requires Serial(a) == Serial(b)
    ensures a == b
  {
    assert |Serial(a)| == 8 * |a| && |Serial(b)| == 8 * |b|;
    if a != [] {
      assert ByteBits(a[0]) == Serial(a)[..8] == Serial(b)[..8] == ByteBits(b[0]);
      ByteBitsInjective(a[0], b[0]);
      assert Serial(a[1..]) == Serial(a)[8..] == Serial(b)[8..] == Serial(b[1..]);
      SerialInjective(a[1..], b[1..]);
    }
  }

  // Byte strings cut into chunks.

  function Joined(chunks: seq<seq<Byte>>): seq<Byte> {
    if chunks == [] then [] else chunks[0] + Joined(chunks[1..])
  }

  function TotalSize(chunks: seq<seq<Byte>>): nat {
    if chunks == [] then 0 else |chunks[0]| + TotalSize(chunks[1..])
  }

  lemma {:induction false} Associates<T>(a: seq<T>, b: seq<T>, c: seq<T>)
    ensures a + (b + c) == a + b + c
  {
  }

  lemma {:induction false} JoinedAppend(a: seq<seq<Byte>>, b: seq<seq<Byte>>)
    ensures Joined(a + b) == Joined(a) + Joined(b)
  {
    if a == [] {
      assert a + b == b;
    } else {
      assert (a + b)[1..] == a[1..] + b;
      JoinedAppend(a[1..], b);
      Associates(a[0], Joined(a[1..]), Joined(b));
    }
  }

  lemma {:induction false} TotalSizeAppend(a: seq<seq<Byte>>, b: seq<seq<Byte>>)
    ensures TotalSize(a + b) == TotalSize(a) + TotalSize(b)
  {
    if a == [] {
      assert a + b == b;
    } else {
      assert (a + b)[1..] == a[1..] + b;
      TotalSizeAppend(a[1..], b);
    }
  }

  /** A read delivers at least one byte; none is the end of the connection. */
  predicate NonEmpty(parts: seq<seq<Byte>>) {
    forall i :: 0 <= i < |parts| ==> parts[i] != []
  }

  lemma {:induction false} NonEmptyRest(parts: seq<seq<Byte>>)
    requires NonEmpty(parts) && parts != []
    ensures NonEmpty(parts[1..]) && |Joined(parts)| == |parts[0]| + |Joined(parts[1..])| && parts[0] != []
  {
    assert forall i :: 0 <= i < |parts| - 1 ==> parts[1..][i] == parts[i + 1];
  }

  lemma {:induction false} JoinedNonEmpty(parts: seq<seq<Byte>>)
    requires NonEmpty(parts)
    ensures |Joined(parts)| >= |parts|
  {
    if parts != [] {
      NonEmptyRest(parts);
      JoinedNonEmpty(parts[1..]);
    }
  }

  lemma {:induction false} JoinedOne(parts: seq<seq<Byte>>)
    ensures |parts| == 1 ==> Joined(parts) == parts[0]
  {
    if |parts| == 1 {
      assert parts[1..] == [] && parts[0] + [] == parts[0];
    }
  }

  /** The growable byte buffer the encoders append to and the servers accumulate input in. */
  class BytesMut {
    var data: seq<Byte>

    constructor ()
      ensures data == []
    {
      data := [];
    }

    method PutU8(b: Byte)
      modifies this
      ensures data == old(data) + [b]
    {
      data := data + [b];
    }

    method PutU16(v: U16)
      modifies this
      ensures data == old(data) + BeBytes(v)
    {
      data := data + BeBytes(v);
    }

    method PutSlice(s: seq<Byte>)
      modifies this
      ensures data == old(data) + s
    {
      data := data + s;
    }

    method Advance(n: nat)
      requires n <= |data|
      modifies this
      ensures data == old(data)[n..]
    {
      data := data[n..];
    }

    method Truncate(n: nat)
      requires n <= |data|
      modifies this
      ensures data == old(data)[..n]
    {
      data := data[..n];
    }

    method Clear()
      modifies this
      ensures data == []
    {
      data := [];
    }
  }

  /** The read cursor the decoders advance. */
  class Cursor {
    var rest: seq<Byte>

    constructor (bytes: seq<Byte>)
      ensures rest == bytes
    {
      rest := bytes;
    }

    method GetU8() returns (b: Byte)
      requires |rest| >= 1
      modifies this
      ensures b == old(rest)[0] && rest == old(rest)[1..]
    {
      b := rest[0];
      rest := rest[1..];
    }

    method GetU16() returns (v: U16)
      requires |rest| >= 2
      modifies this
      ensures v == BeU16(old(rest)[0], old(rest)[1]) && rest == old(rest)[2..]
    {
      v := BeU16(rest[0], rest[1]);
      rest := rest[2..];
    }
  }
}
