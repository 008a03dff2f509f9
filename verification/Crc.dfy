/**
 CRC-16 as `src/codec.rs` computes it: a 256-entry table and one lookup per byte on a 16-bit word.  It is proved to be
 the bit-serial division of module Division, and the division's results are restated for byte strings.
 */
module Crc {
  import opened Bits
  import opened Wire
  import opened Division

  const INITIAL: U16 := 0xFFFF

  /** The CRC by definition: the remainder of bit-serial division, starting from all ones. */
  function Crc16(data: seq<Byte>): U16 {
    WordFrom(Divide(WordBits(INITIAL), Serial(data)))
  }

  function LeBytes(w: U16): seq<Byte> {
    [w % 256, w / 256]
  }

  // ── The table ────────────────────────────────────────────────────────────

  /** One iteration of the table generator. */
  function ShiftStep(crc: U16): U16 {
    if crc % 2 != 0 then XorWord(crc / 2, 0xA001) else crc / 2
  }

  function TableEntry(i: Byte): U16 {
    WordFrom(Shift(WordBits(i), 8))
  }

  lemma {:induction false} WordBitsAre(w: U16, bits: seq<bool>)
    requires |bits| == 16 && FromBits(bits) == w
    ensures WordBits(w) == bits
  {
    BitsFromBits(bits);
  }

  lemma {:induction false} WordBytes(w: U16)
    ensures WordBits(w) == ByteBits(w % 256) + ByteBits(w / 256)
    ensures WordBits(w / 256) == WordBits(w)[8..] + Zeros(8)
  {
    var low, high := ByteBits(w % 256), ByteBits(w / 256);
    Powers();
    FromBitsBits(w % 256, 8);
    FromBitsBits(w / 256, 8);
    FromBitsAppend(low, high);
    WordBitsAre(w, low + high);
    FromBitsZeros(8);
    FromBitsAppend(high, Zeros(8));
    WordBitsAre(w / 256, high + Zeros(8));
  }

  lemma {:induction false} WordHalf(w: U16)
    ensures WordBits(w)[0] == (w % 2 == 1)
    ensures WordBits(w / 2) == WordBits(w)[1..] + [false]
  {
    var half := ToBits(w / 2, 15);
    Powers();
    FromBitsBits(w / 2, 15);
    FromBitsAppend(half, [false]);
    WordBitsAre(w / 2, half + [false]);
  }

  lemma {:induction false} GeneratorTop()
    ensures FromBits([true, false, true]) == 5
  {
    assert [true, false, true][1..] == [false, true] && [false, true][1..] == [true];
  }

  lemma {:induction false} GeneratorValue()
    ensures FromBits(Generator()) == 0xA001
  {
    var gap, top := Zeros(12), [true, false, true];
    GeneratorTop();
    FromBitsZeros(12);
    FromBitsAppend(gap, top);
    assert Pow2(12) == 4096;
    var g := Generator();
    assert g[0] && g[1..] == gap + top;
  }

  lemma {:induction false} GeneratorWord()
    ensures WordBits(0xA001) == Generator()
  {
    GeneratorValue();
    WordBitsAre(0xA001, Generator());
  }

  lemma {:induction false} StepWord(w: U16)
    ensures WordBits(ShiftStep(w)) == Step(WordBits(w))
  {
    WordHalf(w);
    GeneratorWord();
    assert Xor(WordBits(w / 2), Zero()) == WordBits(w / 2);
  }

  lemma {:induction false} ByteAsWord(b: Byte)
    ensures WordBits(b) == ByteBits(b) + Zeros(8)
  {
    Powers();
    FromBitsBits(b, 8);
    FromBitsZeros(8);
    FromBitsAppend(ByteBits(b), Zeros(8));
    WordBitsAre(b, ByteBits(b) + Zeros(8));
  }

  lemma {:induction false} LowHalf(w: U16)
    ensures WordBits(w)[..8] == ByteBits(w % 256)
    ensures WordBits(w / 256) == WordBits(w)[8..] + Zeros(8)
  {
    WordBytes(w);
  }

  // One lookup advances the word by a whole byte of the division.
  lemma {:induction false} TableStep(crc: U16, b: Byte)
    ensures WordBits(XorWord(crc / 256, TableEntry(XorByte(crc % 256, b)))) == Divide(WordBits(crc), ByteBits(b))
  {
    var r, index := WordBits(crc), XorByte(crc % 256, b);
    LowHalf(crc);
    ByteAsWord(index);
    DivideByte(r, ByteBits(b));
  }

  ghost predicate IsCrcTable(table: seq<U16>) {
    |table| == 256 && forall i: Byte :: table[i] == TableEntry(i)
  }

  method BuildCrcTable() returns (table: array<U16>)
    ensures fresh(table) && IsCrcTable(table[..])
  {
    table := new U16[256];
    for i := 0 to 256
      invariant forall k: Byte :: k < i ==> table[k] == TableEntry(k)
    {
      table[i] := ShiftEightTimes(i);
    }
  }

  // The inner loop of the table generator.
  method ShiftEightTimes(i: Byte) returns (crc: U16)
    ensures crc == TableEntry(i)
  {
    crc := i;
    ghost var n := 8;
    for j := 0 to 8
      invariant n == 8 - j && Shift(WordBits(crc), n) == Shift(WordBits(i), 8)
    {
      n := n - 1;
      crc := ShiftOnce(crc, n);
    }
    WordBitsInjective(crc, TableEntry(i));
  }

  method ShiftOnce(crc: U16, ghost n: nat) returns (next: U16)
    ensures Shift(WordBits(next), n) == Shift(WordBits(crc), n + 1)
  {
    StepWord(crc);
    next := if crc % 2 != 0 then XorWord(crc / 2, 0xA001) else crc / 2;
  }

  method CalculateCrc(table: array<U16>, data: seq<Byte>) returns (crc: U16)
    requires IsCrcTable(table[..])
    ensures crc == Crc16(data)
  {
    crc := INITIAL;
    for i := 0 to |data|
      invariant Divide(WordBits(crc), Serial(data[i..])) == Divide(WordBits(INITIAL), Serial(data))
    {
      var index := XorByte(crc % 256, data[i]);
      assert table[..][index] == TableEntry(index);
      TableStep(crc, data[i]);
      assert data[i..][0] == data[i] && data[i..][1..] == data[i + 1..];
      DivideAppend(WordBits(crc), ByteBits(data[i]), Serial(data[i + 1..]));
      crc := XorWord(crc / 256, table[index]);
    }
    WordBitsInjective(crc, Crc16(data));
  }

  // ── What the remainder says about byte strings ───────────────────────────

  predicate DividesOut(data: seq<Byte>) {
    Divide(WordBits(INITIAL), Serial(data)) == Zero()
  }

  lemma {:induction false} SerialPair(lo: Byte, hi: Byte)
    ensures Serial([lo, hi]) == ByteBits(lo) + ByteBits(hi)
  {
    assert [lo, hi][1..] == [hi] && [hi][1..] == [];
    assert Serial([hi]) == ByteBits(hi) + [];
  }

  /** Two appended bytes leave remainder zero exactly when they are the CRC, low byte first. */
  lemma {:induction false} CrcResidue(data: seq<Byte>, lo: Byte, hi: Byte)
    ensures DividesOut(data + [lo, hi]) <==> [lo, hi] == LeBytes(Crc16(data))
  {
    var crc := Crc16(data);
    SerialAppend(data, [lo, hi]);
    SerialPair(lo, hi);
    DivideAppend(WordBits(INITIAL), Serial(data), ByteBits(lo) + ByteBits(hi));
    PairToZero(crc, lo, hi);
    assert LeBytes(crc)[0] == crc % 256 && LeBytes(crc)[1] == crc / 256;
  }

  lemma {:induction false} PairToZero(crc: U16, lo: Byte, hi: Byte)
    ensures Divide(WordBits(crc), ByteBits(lo) + ByteBits(hi)) == Zero() <==> crc % 256 == lo && crc / 256 == hi
  {
    var w := hi * 256 + lo;
    WordBytes(w);
    assert w % 256 == lo && w / 256 == hi;
    DivideToZero(WordBits(crc), WordBits(w));
    assert Pack(WordBits(w)) == WordBits(w);
    if WordBits(crc) == WordBits(w) {
      WordBitsInjective(crc, w);
    }
  }

  /** The two byte strings differ, and only within sixteen consecutive bits. */
  ghost predicate BurstApart(a: seq<Byte>, b: seq<Byte>, start: nat) {
    && |a| == |b| && a != b
    && forall i :: 0 <= i < |Serial(a)| && Serial(a)[i] != Serial(b)[i] ==> start <= i < start + 16
  }

  /** The two byte strings differ in an odd number of bits. */
  ghost predicate OddApart(a: seq<Byte>, b: seq<Byte>) {
    |a| == |b| && Odd(Xor(Serial(a), Serial(b)))
  }

  lemma {:induction false} BurstDetected(a: seq<Byte>, b: seq<Byte>, start: nat)
    requires BurstApart(a, b, start) && DividesOut(a)
    ensures !DividesOut(b)
  {
    var x, y := Serial(a), Serial(b);
    var d := Xor(x, y);
    assert x != y by {
      if x == y {
        SerialInjective(a, b);
      }
    }
    var i :| 0 <= i < |x| && x[i] != y[i];
    assert d[i];
    DifferenceRemainder(WordBits(INITIAL), x, y);
    BurstRemainder(d, start);
  }

  lemma {:induction false} OddErrorDetected(a: seq<Byte>, b: seq<Byte>)
    requires OddApart(a, b) && DividesOut(a)
    ensures !DividesOut(b)
  {
    DifferenceRemainder(WordBits(INITIAL), Serial(a), Serial(b));
    OddRemainder(Xor(Serial(a), Serial(b)));
  }

  /** Two strings that each carry their CRC never make one when joined. */
  lemma {:induction false} JoinedNeverDivides(a: seq<Byte>, b: seq<Byte>)
    requires DividesOut(a) && DividesOut(b)
    ensures !DividesOut(a + b)
  {
    hide Divide;
    SerialAppend(a, b);
    DivideAppend(WordBits(INITIAL), Serial(a), Serial(b));
    SameRemainder(Zero(), WordBits(INITIAL), Serial(b));
    FromBitsZeros(16);
    WordBitsAre(0, Zeros(16));
    if WordBits(INITIAL) == Zero() {
      WordBitsInjective(INITIAL, 0);
      assert false;
    }
  }
}
