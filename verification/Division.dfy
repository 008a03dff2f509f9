/**
 Bit-serial polynomial division over GF(2) by the generator x^16 + x^15 + x^2 + 1, register reflected: sixteen bits,
 least significant first.  This is the reference the CRC code is compared with and the place its algebra is proved.
 */
module Division {
  import opened Bits

  type Register = r: seq<bool> | |r| == 16
    witness [false, false, false, false, false, false, false, false, false, false, false, false, false, false, false, false]

  function Zero(): Register {
    Zeros(16)
  }

  /** The reflected generator 0xA001: bits 0, 13 and 15. */
  function Generator(): (g: Register)
    ensures forall i :: 0 <= i < 16 ==> g[i] == (i == 0 || i == 13 || i == 15)
  {
    seq(16, i => i == 0 || i == 13 || i == 15)
  }

  function Step(r: Register): Register {
    Xor(r[1..] + [false], if r[0] then Generator() else Zero())
  }

  /** One message bit enters the register. */
  function BitStep(r: Register, bit: bool): Register {
    Step(r[0 := r[0] != bit])
  }

  function Divide(r: Register, bits: seq<bool>): Register
    decreases |bits|
  {
    if bits == [] then r else Divide(BitStep(r, bits[0]), bits[1..])
  }

  function Shift(r: Register, n: nat): Register
    decreases n, r
  {
    if n == 0 then r else Shift(Step(r), n - 1)
  }

  // ── Linearity ────────────────────────────────────────────────────────────

  lemma {:induction false} StepXor(a: Register, b: Register)
    ensures Step(Xor(a, b)) == Xor(Step(a), Step(b))
  {
  }

  /** Dividing the difference of two messages gives the difference of their remainders. */
  lemma {:induction false} DivideXor(a: Register, b: Register, x: seq<bool>, y: seq<bool>)
    requires |x| == |y|
    ensures Divide(Xor(a, b), Xor(x, y)) == Xor(Divide(a, x), Divide(b, y))
    decreases |x|
  {
    if x != [] {
      var a', b' := a[0 := a[0] != x[0]], b[0 := b[0] != y[0]];
      assert Xor(a, b)[0 := Xor(a, b)[0] != Xor(x, y)[0]] == Xor(a', b');
      StepXor(a', b');
      assert Xor(x, y)[1..] == Xor(x[1..], y[1..]);
      DivideXor(BitStep(a, x[0]), BitStep(b, y[0]), x[1..], y[1..]);
    }
  }

  lemma {:induction false} ShiftXor(a: Register, b: Register, n: nat)
    ensures Shift(Xor(a, b), n) == Xor(Shift(a, n), Shift(b, n))
    decreases n
  {
    if n > 0 {
      StepXor(a, b);
      ShiftXor(Step(a), Step(b), n - 1);
    }
  }

  lemma {:induction false} DivideAppend(r: Register, a: seq<bool>, b: seq<bool>)
    ensures Divide(r, a + b) == Divide(Divide(r, a), b)
    decreases |a|
  {
    if a == [] {
      assert a + b == b;
    } else {
      assert (a + b)[1..] == a[1..] + b;
      DivideAppend(BitStep(r, a[0]), a[1..], b);
    }
  }

  // ── Inverting the division ───────────────────────────────────────────────

  /** Up to sixteen bits as a register: the bits first, zeros above them. */
  function Pack(bits: seq<bool>): Register
    requires |bits| <= 16
  {
    bits + Zeros(16 - |bits|)
  }

  lemma {:induction false} UndoStep(r: Register, bit: bool, p: Register)
    requires !p[15]
    ensures BitStep(r, bit) == p <==> r == [bit] + p[..15]
  {
    var fed := r[0 := r[0] != bit];
    assert Step(fed)[15] == fed[0];
    if r == [bit] + p[..15] {
      assert Step(fed) == p;
    }
    if Step(fed) == p {
      assert forall i :: 0 <= i < 15 ==> Step(fed)[i] == fed[i + 1];
      assert forall i :: 1 <= i < 16 ==> r[i] == Step(fed)[i - 1];
    }
  }

  /** Up to sixteen further bits bring the register to zero exactly when they repeat its content. */
  lemma {:induction false} DivideToZero(r: Register, bits: seq<bool>)
    requires |bits| <= 16
    ensures Divide(r, bits) == Zero() <==> r == Pack(bits)
    decreases |bits|
  {
    if bits != [] {
      UndoStep(r, bits[0], Pack(bits[1..]));
      assert Pack(bits) == [bits[0]] + Pack(bits[1..])[..15];
      DivideToZero(BitStep(r, bits[0]), bits[1..]);
    }
  }

  lemma {:induction false} DivideZeros(r: Register, bits: seq<bool>)
    requires forall i :: 0 <= i < |bits| ==> !bits[i]
    ensures Divide(r, bits) == Zero() <==> r == Zero()
    decreases |bits|
  {
    if bits != [] {
      UndoStep(r, false, Zero());
      assert [false] + Zero()[..15] == Zero();
      DivideZeros(BitStep(r, bits[0]), bits[1..]);
    }
  }

  // ── Error patterns ───────────────────────────────────────────────────────

  lemma {:induction false} DifferenceRemainder(r: Register, x: seq<bool>, y: seq<bool>)
    requires |x| == |y|
    ensures Divide(r, x) == Divide(r, y) <==> Divide(Zero(), Xor(x, y)) == Zero()
  {
    DivideXor(r, r, x, y);
    assert Xor(r, r) == Zero();
    var a, b, d := Divide(r, x), Divide(r, y), Divide(Zero(), Xor(x, y));
    if a == b {
      assert d == Zero();
    }
    if d == Zero() {
      assert forall i :: 0 <= i < 16 ==> d[i] == (a[i] != b[i]);
    }
  }

  /** The remainder of a fixed message tells the starting registers apart. */
  lemma {:induction false} SameRemainder(r: Register, s: Register, bits: seq<bool>)
    ensures Divide(r, bits) == Divide(s, bits) <==> r == s
  {
    hide Divide;
    DivideXor(r, s, bits, bits);
    DivideZeros(Xor(r, s), Xor(bits, bits));
    XorZero(r, s);
    XorZero(Divide(r, bits), Divide(s, bits));
  }

  lemma {:induction false} XorZero(r: Register, s: Register)
    ensures Xor(r, s) == Zero() <==> r == s
  {
    if Xor(r, s) == Zero() {
      assert forall i :: 0 <= i < 16 ==> !Xor(r, s)[i];
    }
  }

  /** A pattern of at most sixteen bits between zeros divides out only if it is zero itself. */
  lemma {:induction false} WindowRemainder(before: seq<bool>, burst: seq<bool>, after: seq<bool>)
    requires |burst| <= 16
    requires forall i :: 0 <= i < |before| ==> !before[i]
    requires forall i :: 0 <= i < |after| ==> !after[i]
    ensures Divide(Zero(), before + (burst + after)) == Zero() <==> Zero() == Pack(burst)
  {
    DivideAppend(Zero(), before, burst + after);
    DivideZeros(Zero(), before);
    DivideAppend(Zero(), burst, after);
    DivideZeros(Divide(Zero(), burst), after);
    DivideToZero(Zero(), burst);
  }

  /** A non-zero error pattern confined to sixteen consecutive bits never divides out. */
  lemma {:induction false} BurstRemainder(d: seq<bool>, start: nat)
    requires exists i :: 0 <= i < |d| && d[i]
    requires forall i :: 0 <= i < |d| && d[i] ==> start <= i < start + 16
    ensures Divide(Zero(), d) != Zero()
  {
    var before, burst, after := SplitWindow(d, start);
    WindowRemainder(before, burst, after);
    var k :| 0 <= k < |burst| && burst[k];
    PackNonZero(burst, k);
  }

  lemma {:induction false} SplitWindow(d: seq<bool>, start: nat) returns (before: seq<bool>, burst: seq<bool>, after: seq<bool>)
    requires exists i :: 0 <= i < |d| && d[i]
    requires forall i :: 0 <= i < |d| && d[i] ==> start <= i < start + 16
    ensures d == before + (burst + after) && |burst| <= 16
    ensures forall i :: 0 <= i < |before| ==> !before[i]
    ensures forall i :: 0 <= i < |after| ==> !after[i]
    ensures exists k :: 0 <= k < |burst| && burst[k]
  {
    var i :| 0 <= i < |d| && d[i];
    var stop := if start + 16 <= |d| then start + 16 else |d|;
    before, burst, after := d[..start], d[start..stop], d[stop..];
    assert burst[i - start];
  }

  lemma {:induction false} PackNonZero(bits: seq<bool>, k: nat)
    requires k < |bits| <= 16 && bits[k]
    ensures Pack(bits) != Zero()
  {
    assert Pack(bits)[k] && !Zero()[k];
  }

  lemma {:induction false} OddXor(x: seq<bool>, y: seq<bool>)
    requires |x| == |y|
    ensures Odd(Xor(x, y)) == (Odd(x) != Odd(y))
  {
    if x != [] {
      assert Xor(x, y)[1..] == Xor(x[1..], y[1..]);
      OddXor(x[1..], y[1..]);
    }
  }

  lemma {:induction false} OddAppend(x: seq<bool>, y: seq<bool>)
    ensures Odd(x + y) == (Odd(x) != Odd(y))
  {
    if x == [] {
      assert x + y == y;
    } else {
      assert (x + y)[1..] == x[1..] + y;
      OddAppend(x[1..], y);
    }
  }

  lemma {:induction false} OddZeros(n: nat)
    ensures !Odd(Zeros(n))
  {
    if n > 0 {
      assert Zeros(n)[1..] == Zeros(n - 1);
      OddZeros(n - 1);
    }
  }

  lemma {:induction false} GeneratorOdd()
    ensures Odd(Generator())
  {
    var one, gap, top := [true], Zeros(12), [true, false, true];
    assert Generator() == one + (gap + top);
    OddAppend(one, gap + top);
    OddAppend(gap, top);
    OddZeros(12);
    assert top[1..] == [false, true] && [false, true][1..] == [true];
  }

  /** The generator has an odd number of terms below its leading one, so a step keeps the parity of the register. */
  lemma {:induction false} StepParity(r: Register)
    ensures Odd(Step(r)) == Odd(r)
  {
    OddXor(r[1..] + [false], if r[0] then Generator() else Zero());
    OddAppend(r[1..], [false]);
    OddZeros(16);
    GeneratorOdd();
  }

  lemma {:induction false} DivideParity(r: Register, bits: seq<bool>)
    ensures Odd(Divide(r, bits)) == (Odd(r) != Odd(bits))
    decreases |bits|
  {
    if bits != [] {
      var fed: Register := r[0 := r[0] != bits[0]];
      assert fed[1..] == r[1..];
      assert Odd(fed) == (Odd(r) != bits[0]);
      StepParity(fed);
      DivideParity(BitStep(r, bits[0]), bits[1..]);
    }
  }

  /** An error pattern with an odd number of bits never divides out. */
  lemma {:induction false} OddRemainder(d: seq<bool>)
    requires Odd(d)
    ensures Divide(Zero(), d) != Zero()
  {
    DivideParity(Zero(), d);
    OddZeros(16);
  }

  // ── Whole bytes at a time ────────────────────────────────────────────────

  lemma {:induction false} AbsorbStep(r: Register, bit: bool, p: Register)
    requires !p[15]
    ensures Step(Xor(r, [bit] + p[..15])) == Xor(BitStep(r, bit), p)
  {
  }

  /** Combining up to sixteen message bits into the register and then shifting is the same as feeding them one by one. */
  lemma {:induction false} DivideAbsorbs(r: Register, bits: seq<bool>)
    requires |bits| <= 16
    ensures Divide(r, bits) == Shift(Xor(r, Pack(bits)), |bits|)
    decreases |bits|
  {
    if bits == [] {
      assert Xor(r, Pack(bits)) == r;
    } else {
      var p := Pack(bits[1..]);
      AbsorbStep(r, bits[0], p);
      assert Pack(bits) == [bits[0]] + p[..15];
      DivideAbsorbs(BitStep(r, bits[0]), bits[1..]);
    }
  }

  lemma {:induction false} ShiftZeros(r: Register, n: nat)
    requires n <= 16 && forall i :: 0 <= i < n ==> !r[i]
    ensures Shift(r, n) == r[n..] + Zeros(n)
    decreases n
  {
    if n > 0 {
      assert Step(r) == r[1..] + [false];
      ShiftZeros(Step(r), n - 1);
    }
  }

  /** Feeding a byte moves the high half down and adds eight shifts of (low half xor byte). */
  lemma {:induction false} DivideByte(r: Register, bits: seq<bool>)
    requires |bits| == 8
    ensures Divide(r, bits) == Xor(r[8..] + Zeros(8), Shift(Pack(Xor(r[..8], bits)), 8))
  {
    var high: Register := Zeros(8) + r[8..];
    var low := Pack(Xor(r[..8], bits));
    DivideAbsorbs(r, bits);
    assert Xor(r, Pack(bits)) == Xor(high, low);
    ShiftXor(high, low, 8);
    ShiftZeros(high, 8);
    assert high[8..] == r[8..];
  }
}
