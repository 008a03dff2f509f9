/** Bit strings, least significant bit first, and the numbers they stand for. */
module Bits {

  function ToBits(n: nat, count: nat): (bits: seq<bool>)
    ensures |bits| == count
    decreases n, count
  {
    if count == 0 then [] else [n % 2 == 1] + ToBits(n / 2, count - 1)
  }

  function FromBits(bits: seq<bool>): nat {
    if bits == [] then 0 else (if bits[0] then 1 else 0) + 2 * FromBits(bits[1..])
  }

  function Pow2(n: nat): (p: nat)
    ensures p > 0
  {
    if n == 0 then 1 else 2 * Pow2(n - 1)
  }

  lemma {:induction false} Powers()
    ensures Pow2(1) == 2 && Pow2(8) == 0x100 && Pow2(16) == 0x1_0000
  {
    assert Pow2(4) == 16;
    assert Pow2(8) == 256;
    assert Pow2(12) == 4096;
  }

  function Zeros(n: nat): (z: seq<bool>)
    ensures |z| == n && forall i :: 0 <= i < n ==> !z[i]
  {
    seq(n, i => false)
  }

  function Xor(x: seq<bool>, y: seq<bool>): (d: seq<bool>)
    requires |x| == |y|
    ensures |d| == |x| && forall i :: 0 <= i < |d| ==> d[i] == (x[i] != y[i])
  {
    seq(|x|, i requires 0 <= i < |x| => x[i] != y[i])
  }

  /** Whether an odd number of the bits is set. */
  predicate Odd(bits: seq<bool>) {
    bits != [] && bits[0] != Odd(bits[1..])
  }

  lemma {:induction false} FromBitsBits(n: nat, count: nat)
    requires n < Pow2(count)
    ensures FromBits(ToBits(n, count)) == n
    decreases count
  {
    if count > 0 {
      FromBitsBits(n / 2, count - 1);
    }
  }

  lemma {:induction false} BitsFromBits(bits: seq<bool>)
    ensures FromBits(bits) < Pow2(|bits|) && ToBits(FromBits(bits), |bits|) == bits
  {
    if bits != [] {
      BitsFromBits(bits[1..]);
    }
  }

  lemma {:induction false} FromBitsAppend(x: seq<bool>, y: seq<bool>)
    ensures FromBits(x + y) == FromBits(x) + Pow2(|x|) * FromBits(y)
  {
    if x == [] {
      assert x + y == y;
    } else {
      FromBitsAppend(x[1..], y);
      assert (x + y)[1..] == x[1..] + y;
      DoubleProduct(Pow2(|x| - 1), FromBits(y));
    }
  }

  lemma {:induction false} DoubleProduct(p: nat, f: nat)
    ensures (2 * p) * f == 2 * (p * f)
  {
  }

  lemma {:induction false} FromBitsZeros(n: nat)
    ensures FromBits(Zeros(n)) == 0
  {
    if n > 0 {
      assert Zeros(n)[1..] == Zeros(n - 1);
      FromBitsZeros(n - 1);
    }
  }

  lemma {:induction false} FromBitsPadded(bits: seq<bool>, n: nat)
    ensures FromBits(bits + Zeros(n)) == FromBits(bits)
  {
    FromBitsAppend(bits, Zeros(n));
    FromBitsZeros(n);
  }
}
