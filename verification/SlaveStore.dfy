/**
 The in-memory register store of `src/slave_store.rs`: bit-packed coils and growing register vectors, compared with a
 memory that is four plain total maps.
 */
module SlaveStore {
  import opened Bits
  import opened Wire
  import opened Pdu

  const DEFAULT_REG_COUNT := 1024

  // ── The plain memory ─────────────────────────────────────────────────────

  datatype Memory = Memory(coils: nat -> bool, inputs: nat -> bool, holding: nat -> U16, input: nat -> U16)

  function Overwrite<T>(m: nat -> T, addr: nat, values: seq<T>): nat -> T {
    (a: nat) => if addr <= a < addr + |values| then values[a - addr] else m(a)
  }

  function Range<T>(m: nat -> T, addr: nat, count: nat): seq<T> {
    seq(count, i requires 0 <= i => m(addr + i))
  }

  /** `(current & andMask) | (orMask & !andMask)`, bit by bit. */
  function Masked(current: U16, andMask: U16, orMask: U16): U16 {
    var c, a, o := WordBits(current), WordBits(andMask), WordBits(orMask);
    WordFrom(seq(16, i requires 0 <= i < 16 => (c[i] && a[i]) || (o[i] && !a[i])))
  }

  function DiagnosticReply(subFunction: U16, word: U16): Result<Response, ExceptionCode> {
    if subFunction == 0 then Ok(Response.Diagnostic(subFunction, word))
    else if 0xA <= subFunction <= 0xE then Ok(Response.Diagnostic(subFunction, 0))
    else Err(IllegalDataValue)
  }

  /** What each request means on the plain memory: the new memory and the reply. */
  function Meaning(mem: Memory, req: Request): (Memory, Result<Response, ExceptionCode>) {
    match req
    case ReadCoils(addr, qty) => (mem, Ok(Response.ReadCoils(Range(mem.coils, addr, qty))))
    case ReadDiscreteInputs(addr, qty) => (mem, Ok(Response.ReadDiscreteInputs(Range(mem.inputs, addr, qty))))
    case ReadHoldingRegisters(addr, qty) => (mem, Ok(Response.ReadHoldingRegisters(Range(mem.holding, addr, qty))))
    case ReadInputRegisters(addr, qty) => (mem, Ok(Response.ReadInputRegisters(Range(mem.input, addr, qty))))
    case WriteSingleCoil(addr, on) =>
      (mem.(coils := Overwrite(mem.coils, addr, [on])), Ok(Response.WriteSingleCoil(addr, on)))
    case WriteSingleRegister(addr, word) =>
      (mem.(holding := Overwrite(mem.holding, addr, [word])), Ok(Response.WriteSingleRegister(addr, word)))
    case WriteMultipleCoils(addr, coils) =>
      (mem.(coils := Overwrite(mem.coils, addr, coils)), Ok(Response.WriteMultipleCoils(addr, |coils| % 0x1_0000)))
    case WriteMultipleRegisters(addr, words) =>
      (mem.(holding := Overwrite(mem.holding, addr, words)),
       Ok(Response.WriteMultipleRegisters(addr, |words| % 0x1_0000)))
    case MaskWriteRegister(addr, andMask, orMask) =>
      (mem.(holding := Overwrite(mem.holding, addr, [Masked(mem.holding(addr), andMask, orMask)])),
       Ok(Response.MaskWriteRegister(addr, andMask, orMask)))
    case ReadWriteMultipleRegisters(addr, qty, writeAddr, words) =>
      (mem.(holding := Overwrite(mem.holding, writeAddr, words)),
       Ok(Response.ReadWriteMultipleRegisters(Range(mem.holding, addr, qty))))
    case Diagnostic(subFunction, word) => (mem, DiagnosticReply(subFunction, word))
    case Disconnect => (mem, Err(IllegalFunction))
  }

  // ── Bit-packed coils ─────────────────────────────────────────────────────

  /** `vec![x; n]`. */
  function Filled<T>(n: nat, x: T): (s: seq<T>)
    ensures |s| == n && forall i :: 0 <= i < n ==> s[i] == x
  {
    seq(n, i => x)
  }

  /** Resize to at least `n` elements, new ones being `zero`. */
  function Grown<T>(s: seq<T>, n: nat, zero: T): (g: seq<T>)
    ensures |g| == if |s| < n then n else |s|
    ensures forall i :: 0 <= i < |g| ==> g[i] == if i < |s| then s[i] else zero
  {
    if |s| < n then s + Filled(n - |s|, zero) else s
  }

  function BitAt(bytes: seq<Byte>, a: nat): bool {
    a / 8 < |bytes| && ByteBits(bytes[a / 8])[a % 8]
  }

  /** `byte |= 1 << k` or `byte &= !(1 << k)`. */
  function PutBit(byte: Byte, k: nat, value: bool): (b: Byte)
    requires k < 8
    ensures ByteBits(b) == ByteBits(byte)[k := value]
  {
    ByteFrom(ByteBits(byte)[k := value])
  }

  function WithBit(bytes: seq<Byte>, a: nat, value: bool): seq<Byte> {
    var g := Grown(bytes, a / 8 + 1, 0);
    g[a / 8 := PutBit(g[a / 8], a % 8, value)]
  }

  /** Single-bit writes at consecutive addresses, one after the other. */
  function WithBits(bytes: seq<Byte>, a: nat, values: seq<bool>): seq<Byte>
    decreases |values|
  {
    if values == [] then bytes else WithBits(WithBit(bytes, a, values[0]), a + 1, values[1..])
  }

  lemma {:induction false} ZeroBits(k: nat)
    requires k < 8
    ensures !ByteBits(0)[k]
  {
    assert Zeros(8) == ByteBits(0) by {
      FromBitsZeros(8);
      BitsFromBits(Zeros(8));
    }
  }

  /** Writing a bit changes that bit alone: growth is invisible and the rest of its byte is kept. */
  lemma {:induction false} WithBitAt(bytes: seq<Byte>, a: nat, value: bool, x: nat)
    ensures BitAt(WithBit(bytes, a, value), x) == if x == a then value else BitAt(bytes, x)
  {
    hide ByteBits;
    ZeroBits(x % 8);
    var w := WithBit(bytes, a, value);
    if x / 8 == a / 8 {
      SameBit(x, a);
      var before := Grown(bytes, a / 8 + 1, 0)[a / 8];
      assert ByteBits(w[a / 8]) == ByteBits(before)[a % 8 := value];
    }
  }

  lemma {:induction false} SameBit(x: nat, a: nat)
    requires x / 8 == a / 8
    ensures x % 8 == a % 8 <==> x == a
  {
  }

  lemma {:induction false} WithBitsAt(bytes: seq<Byte>, a: nat, values: seq<bool>, x: nat)
    ensures BitAt(WithBits(bytes, a, values), x) == if a <= x < a + |values| then values[x - a] else BitAt(bytes, x)
    decreases |values|
  {
    hide BitAt, WithBit;
    if values != [] {
      WithBitAt(bytes, a, values[0], x);
      WithBitsAt(WithBit(bytes, a, values[0]), a + 1, values[1..], x);
    }
  }

  // ── Registers ────────────────────────────────────────────────────────────

  function RegAt(regs: seq<U16>, a: nat): U16 {
    if a < |regs| then regs[a] else 0
  }

  function WithReg(regs: seq<U16>, a: nat, value: U16): seq<U16> {
    Grown(regs, a + 1, 0)[a := value]
  }

  /** Single-register writes at consecutive addresses, one after the other. */
  function WithRegs(regs: seq<U16>, a: nat, values: seq<U16>): seq<U16>
    decreases |values|
  {
    if values == [] then regs else WithRegs(WithReg(regs, a, values[0]), a + 1, values[1..])
  }

  lemma {:induction false} WithRegsAt(regs: seq<U16>, a: nat, values: seq<U16>, x: nat)
    ensures RegAt(WithRegs(regs, a, values), x) == if a <= x < a + |values| then values[x - a] else RegAt(regs, x)
    decreases |values|
  {
    if values != [] {
      WithRegsAt(WithReg(regs, a, values[0]), a + 1, values[1..], x);
    }
  }

  // ── The store as a value ─────────────────────────────────────────────────

  datatype State = State(coils: seq<Byte>, inputs: seq<Byte>, holding: seq<U16>, input: seq<U16>)

  function BitRange(bytes: seq<Byte>, a: nat, count: nat): seq<bool> {
    seq(count, i requires 0 <= i => BitAt(bytes, a + i))
  }

  function RegRange(regs: seq<U16>, a: nat, count: nat): seq<U16> {
    seq<U16>(count, i requires 0 <= i => RegAt(regs, a + i))
  }

  /** What the service does to the vectors, and its reply. */
  function Served(st: State, req: Request): (State, Result<Response, ExceptionCode>) {
    match req
    case ReadCoils(addr, qty) => (st, Ok(Response.ReadCoils(BitRange(st.coils, addr, qty))))
    case ReadDiscreteInputs(addr, qty) => (st, Ok(Response.ReadDiscreteInputs(BitRange(st.inputs, addr, qty))))
    case ReadHoldingRegisters(addr, qty) => (st, Ok(Response.ReadHoldingRegisters(RegRange(st.holding, addr, qty))))
    case ReadInputRegisters(addr, qty) => (st, Ok(Response.ReadInputRegisters(RegRange(st.input, addr, qty))))
    case WriteSingleCoil(addr, on) =>
      (st.(coils := WithBit(st.coils, addr, on)), Ok(Response.WriteSingleCoil(addr, on)))
    case WriteSingleRegister(addr, word) =>
      (st.(holding := WithReg(st.holding, addr, word)), Ok(Response.WriteSingleRegister(addr, word)))
    case WriteMultipleCoils(addr, coils) =>
      (st.(coils := WithBits(st.coils, addr, coils)), Ok(Response.WriteMultipleCoils(addr, |coils| % 0x1_0000)))
    case WriteMultipleRegisters(addr, words) =>
      (st.(holding := WithRegs(st.holding, addr, words)),
       Ok(Response.WriteMultipleRegisters(addr, |words| % 0x1_0000)))
    case MaskWriteRegister(addr, andMask, orMask) =>
      (st.(holding := WithReg(st.holding, addr, Masked(RegAt(st.holding, addr), andMask, orMask))),
       Ok(Response.MaskWriteRegister(addr, andMask, orMask)))
    case ReadWriteMultipleRegisters(addr, qty, writeAddr, words) =>
      (st.(holding := WithRegs(st.holding, writeAddr, words)),
       Ok(Response.ReadWriteMultipleRegisters(RegRange(st.holding, addr, qty))))
    case Diagnostic(subFunction, word) => (st, DiagnosticReply(subFunction, word))
    case Disconnect => (st, Err(IllegalFunction))
  }

  /** The vectors hold the memory: every address of every table reads the same. */
  ghost predicate Holds(st: State, mem: Memory) {
    && (forall a: nat :: BitAt(st.coils, a) == mem.coils(a))
    && (forall a: nat :: BitAt(st.inputs, a) == mem.inputs(a))
    && (forall a: nat :: RegAt(st.holding, a) == mem.holding(a))
    && (forall a: nat :: RegAt(st.input, a) == mem.input(a))
  }

  lemma {:induction false} BitWritesHold(bytes: seq<Byte>, m: nat -> bool, addr: nat, values: seq<bool>)
    requires forall a: nat :: BitAt(bytes, a) == m(a)
    ensures forall a: nat :: BitAt(WithBits(bytes, addr, values), a) == Overwrite(m, addr, values)(a)
  {
    hide BitAt, WithBits;
    forall a: nat
      ensures BitAt(WithBits(bytes, addr, values), a) == Overwrite(m, addr, values)(a)
    {
      WithBitsAt(bytes, addr, values, a);
    }
  }

  lemma {:induction false} RegWritesHold(regs: seq<U16>, m: nat -> U16, addr: nat, values: seq<U16>)
    requires forall a: nat :: RegAt(regs, a) == m(a)
    ensures forall a: nat :: RegAt(WithRegs(regs, addr, values), a) == Overwrite(m, addr, values)(a)
  {
    hide RegAt, WithRegs;
    forall a: nat
      ensures RegAt(WithRegs(regs, addr, values), a) == Overwrite(m, addr, values)(a)
    {
      WithRegsAt(regs, addr, values, a);
    }
  }

  lemma {:induction false} SingleWrites(bytes: seq<Byte>, regs: seq<U16>, a: nat, value: bool, word: U16)
    ensures WithBits(bytes, a, [value]) == WithBit(bytes, a, value)
    ensures WithRegs(regs, a, [word]) == WithReg(regs, a, word)
  {
    hide WithBit, WithReg;
    assert [value][1..] == [] && [word][1..] == [];
  }

  lemma {:induction false} RangesAgree(st: State, mem: Memory)
    requires Holds(st, mem)
    ensures forall a: nat, n: nat :: BitRange(st.coils, a, n) == Range(mem.coils, a, n)
    ensures forall a: nat, n: nat :: BitRange(st.inputs, a, n) == Range(mem.inputs, a, n)
    ensures forall a: nat, n: nat :: RegRange(st.holding, a, n) == Range(mem.holding, a, n)
    ensures forall a: nat, n: nat :: RegRange(st.input, a, n) == Range(mem.input, a, n)
  {
    hide BitAt, RegAt;
  }

  /** One request: the vectors follow the plain memory and give the same reply. */
  lemma {:induction false} ServedRefines(st: State, mem: Memory, req: Request)
    requires Holds(st, mem)
    ensures Holds(Served(st, req).0, Meaning(mem, req).0)
    ensures Served(st, req).1 == Meaning(mem, req).1
  {
    hide BitAt, RegAt, WithBit, WithBits, WithReg, WithRegs, Masked, Overwrite;
    RangesAgree(st, mem);
    match req {
      case WriteSingleCoil(addr, on) =>
        SingleWrites(st.coils, [], addr, on, 0);
        BitWritesHold(st.coils, mem.coils, addr, [on]);
      case WriteMultipleCoils(addr, coils) =>
        BitWritesHold(st.coils, mem.coils, addr, coils);
      case WriteSingleRegister(addr, word) =>
        SingleWrites([], st.holding, addr, false, word);
        RegWritesHold(st.holding, mem.holding, addr, [word]);
      case WriteMultipleRegisters(addr, words) =>
        RegWritesHold(st.holding, mem.holding, addr, words);
      case MaskWriteRegister(addr, andMask, orMask) =>
        var word := Masked(mem.holding(addr), andMask, orMask);
        assert RegAt(st.holding, addr) == mem.holding(addr);
        SingleWrites([], st.holding, addr, false, word);
        RegWritesHold(st.holding, mem.holding, addr, [word]);
      case ReadWriteMultipleRegisters(_, _, writeAddr, words) =>
        RegWritesHold(st.holding, mem.holding, writeAddr, words);
      case _ =>
    }
  }

  function Replies(st: State, reqs: seq<Request>): seq<Result<Response, ExceptionCode>>
    decreases |reqs|
  {
    if reqs == [] then [] else [Served(st, reqs[0]).1] + Replies(Served(st, reqs[0]).0, reqs[1..])
  }

  function Meanings(mem: Memory, reqs: seq<Request>): seq<Result<Response, ExceptionCode>>
    decreases |reqs|
  {
    if reqs == [] then [] else [Meaning(mem, reqs[0]).1] + Meanings(Meaning(mem, reqs[0]).0, reqs[1..])
  }

  /** Any sequence of requests: the store cannot be told apart from the plain memory. */
  lemma {:induction false} RunRefines(st: State, mem: Memory, reqs: seq<Request>)
    requires Holds(st, mem)
    ensures Replies(st, reqs) == Meanings(mem, reqs)
    decreases |reqs|
  {
    hide Served, Meaning, Holds;
    if reqs != [] {
      ServedRefines(st, mem, reqs[0]);
      RunRefines(Served(st, reqs[0]).0, Meaning(mem, reqs[0]).0, reqs[1..]);
    }
  }

  // ── The objects ──────────────────────────────────────────────────────────

  /** A bit-packed vector behind its lock. */
  class BitVector {
    var bytes: seq<Byte>

    constructor (size: nat)
      ensures |bytes| == size && forall a: nat :: !BitAt(bytes, a)
    {
      bytes := Filled(size, 0);
      new;
      forall a: nat
        ensures !BitAt(bytes, a)
      {
        ZeroBits(a % 8);
      }
    }

    method ReadBit(addr: U16) returns (value: bool)
      ensures value == BitAt(bytes, addr)
    {
      var byteIdx, bitIdx := addr / 8, addr % 8;
      value := if byteIdx < |bytes| then ByteBits(bytes[byteIdx])[bitIdx] else false;
    }

    method WriteBit(addr: nat, value: bool)
      modifies this
      ensures bytes == WithBit(old(bytes), addr, value)
    {
      var byteIdx := addr / 8;
      if byteIdx >= |bytes| {
        bytes := bytes + Filled(byteIdx + 1 - |bytes|, 0);
      }
      bytes := bytes[byteIdx := PutBit(bytes[byteIdx], addr % 8, value)];
    }

    method ReadBits(addr: U16, count: U16) returns (values: seq<bool>)
      ensures values == BitRange(bytes, addr, count)
    {
      values := [];
      for i := 0 to count
        invariant values == BitRange(bytes, addr, i)
      {
        var a := addr + i;
        values := values + [if a / 8 < |bytes| then ByteBits(bytes[a / 8])[a % 8] else false];
        assert values[i] == BitAt(bytes, addr + i);
      }
    }

    method WriteBits(addr: U16, values: seq<bool>)
      modifies this
      ensures bytes == WithBits(old(bytes), addr, values)
    {
      hide WithBit;
      for i := 0 to |values|
        invariant WithBits(bytes, addr + i, values[i..]) == WithBits(old(bytes), addr, values)
      {
        assert values[i..][0] == values[i] && values[i..][1..] == values[i + 1..];
        WriteBit(addr + i, values[i]);
      }
    }
  }

  /** A register vector behind its lock. */
  class RegisterVector {
    var regs: seq<U16>

    constructor (size: nat)
      ensures |regs| == size && forall a: nat :: RegAt(regs, a) == 0
    {
      regs := Filled(size, 0);
      new;
      assert forall a: nat :: a < |regs| ==> regs[a] == 0;
    }

    method ReadRegister(addr: U16) returns (value: U16)
      ensures value == RegAt(regs, addr)
    {
      value := if addr < |regs| then regs[addr] else 0;
    }

    method ReadRegisters(addr: U16, count: U16) returns (values: seq<U16>)
      ensures values == RegRange(regs, addr, count)
    {
      if addr >= |regs| {
        values := Filled(count, 0);
        assert forall i :: 0 <= i < count ==> values[i] == RegAt(regs, addr + i);
        return;
      }
      var end := if addr + count < |regs| then addr + count else |regs|;
      values := regs[addr..end] + Filled(count - (end - addr), 0);
      assert forall i :: 0 <= i < count ==> values[i] == RegAt(regs, addr + i);
    }

    method WriteRegister(addr: nat, value: U16)
      modifies this
      ensures regs == WithReg(old(regs), addr, value)
    {
      if addr >= |regs| {
        regs := regs + Filled(addr + 1 - |regs|, 0);
      }
      regs := regs[addr := value];
    }

    method WriteRegisters(addr: U16, values: seq<U16>)
      modifies this
      ensures regs == WithRegs(old(regs), addr, values)
    {
      hide WithReg;
      for i := 0 to |values|
        invariant WithRegs(regs, addr + i, values[i..]) == WithRegs(old(regs), addr, values)
      {
        assert values[i..][0] == values[i] && values[i..][1..] == values[i + 1..];
        WriteRegister(addr + i, values[i]);
      }
    }

    method MaskRegister(addr: U16, andMask: U16, orMask: U16)
      modifies this
      ensures regs == WithReg(old(regs), addr, Masked(RegAt(old(regs), addr), andMask, orMask))
    {
      if addr >= |regs| {
        regs := regs + Filled(addr + 1 - |regs|, 0);
      }
      regs := regs[addr := Masked(regs[addr], andMask, orMask)];
    }
  }

  /** The value address `a` gets from a list of (address, value) pairs: the last one given, or 0. */
  function LastGiven(pairs: seq<(U16, U16)>, a: nat): U16 {
    if pairs == [] then 0
    else if pairs[|pairs| - 1].0 == a then pairs[|pairs| - 1].1
    else LastGiven(pairs[..|pairs| - 1], a)
  }

  class SlaveStore {
    const coils: BitVector
    const discreteInputs: BitVector
    const holdingRegisters: RegisterVector
    const inputRegisters: RegisterVector

    ghost predicate Valid()
    {
      coils != discreteInputs && holdingRegisters != inputRegisters
    }

    ghost function Value(): State
      reads coils, discreteInputs, holdingRegisters, inputRegisters
    {
      State(coils.bytes, discreteInputs.bytes, holdingRegisters.regs, inputRegisters.regs)
    }

    constructor ()
      ensures Valid() && fresh(coils) && fresh(discreteInputs) && fresh(holdingRegisters) && fresh(inputRegisters)
      ensures Holds(Value(), Memory(_ => false, _ => false, _ => 0, _ => 0))
    {
      coils := new BitVector(DEFAULT_REG_COUNT / 8);
      discreteInputs := new BitVector(DEFAULT_REG_COUNT / 8);
      holdingRegisters := new RegisterVector(DEFAULT_REG_COUNT);
      inputRegisters := new RegisterVector(DEFAULT_REG_COUNT);
      new;
      assert forall a: nat :: !BitAt(coils.bytes, a) && !BitAt(discreteInputs.bytes, a);
      assert forall a: nat :: RegAt(holdingRegisters.regs, a) == 0 && RegAt(inputRegisters.regs, a) == 0;
    }

    constructor WithHoldingRegisters(pairs: seq<(U16, U16)>)
      ensures Valid() && fresh(coils) && fresh(discreteInputs) && fresh(holdingRegisters) && fresh(inputRegisters)
      ensures Holds(Value(), Memory(_ => false, _ => false, a => LastGiven(pairs, a), _ => 0))
    {
      coils := new BitVector(DEFAULT_REG_COUNT / 8);
      discreteInputs := new BitVector(DEFAULT_REG_COUNT / 8);
      holdingRegisters := new RegisterVector(DEFAULT_REG_COUNT);
      inputRegisters := new RegisterVector(DEFAULT_REG_COUNT);
      new;
      var maxAddr := 0;
      for i := 0 to |pairs|
        invariant 0 <= maxAddr < 0x1_0000 && forall k :: 0 <= k < i ==> pairs[k].0 <= maxAddr
      {
        if pairs[i].0 > maxAddr {
          maxAddr := pairs[i].0;
        }
      }
      var hr := holdingRegisters;
      assert forall k: nat :: k < |hr.regs| ==> hr.regs[k] == RegAt(hr.regs, k);
      if |hr.regs| <= maxAddr {
        hr.regs := hr.regs + Filled(maxAddr + 1 - |hr.regs|, 0);
      }
      assert forall a: nat :: RegAt(hr.regs, a) == 0 by {
        assert forall a: nat :: a < |hr.regs| ==> hr.regs[a] == 0;
      }
      assert pairs[..0] == [];
      ghost var others := (coils.bytes, discreteInputs.bytes, inputRegisters.regs);
      for i := 0 to |pairs|
        invariant others == (coils.bytes, discreteInputs.bytes, inputRegisters.regs)
        invariant |hr.regs| > maxAddr
        invariant forall a: nat :: RegAt(hr.regs, a) == LastGiven(pairs[..i], a)
      {
        hr.regs := hr.regs[pairs[i].0 := pairs[i].1];
        assert pairs[..i + 1][..i] == pairs[..i];
      }
      assert pairs[..|pairs|] == pairs;
      assert forall a: nat :: RegAt(hr.regs, a) == LastGiven(pairs, a);

    }

    method Call(req: Request) returns (r: Result<Response, ExceptionCode>)
      requires Valid()
      modifies coils, holdingRegisters
      ensures Value() == Served(old(Value()), req).0
      ensures r == Served(old(Value()), req).1
    {
      match req {
        case ReadCoils(addr, qty) =>
          var bits := coils.ReadBits(addr, qty);
          r := Ok(Response.ReadCoils(bits));
        case ReadDiscreteInputs(addr, qty) =>
          var bits := discreteInputs.ReadBits(addr, qty);
          r := Ok(Response.ReadDiscreteInputs(bits));
        case ReadHoldingRegisters(addr, qty) =>
          var words := holdingRegisters.ReadRegisters(addr, qty);
          r := Ok(Response.ReadHoldingRegisters(words));
        case ReadInputRegisters(addr, qty) =>
          var words := inputRegisters.ReadRegisters(addr, qty);
          r := Ok(Response.ReadInputRegisters(words));
        case WriteSingleCoil(addr, on) =>
          coils.WriteBit(addr, on);
          r := Ok(Response.WriteSingleCoil(addr, on));
        case WriteSingleRegister(addr, word) =>
          holdingRegisters.WriteRegister(addr, word);
          r := Ok(Response.WriteSingleRegister(addr, word));
        case WriteMultipleCoils(addr, values) =>
          coils.WriteBits(addr, values);
          r := Ok(Response.WriteMultipleCoils(addr, |values| % 0x1_0000));
        case WriteMultipleRegisters(addr, values) =>
          holdingRegisters.WriteRegisters(addr, values);
          r := Ok(Response.WriteMultipleRegisters(addr, |values| % 0x1_0000));
        case MaskWriteRegister(addr, andMask, orMask) =>
          holdingRegisters.MaskRegister(addr, andMask, orMask);
          r := Ok(Response.MaskWriteRegister(addr, andMask, orMask));
        case ReadWriteMultipleRegisters(addr, qty, writeAddr, values) =>
          var words := holdingRegisters.ReadRegisters(addr, qty);
          holdingRegisters.WriteRegisters(writeAddr, values);
          r := Ok(Response.ReadWriteMultipleRegisters(words));
        case Diagnostic(subFunction, word) =>
          if subFunction == 0 {
            r := Ok(Response.Diagnostic(subFunction, word));
          } else if 0xA <= subFunction <= 0xE {
            r := Ok(Response.Diagnostic(subFunction, 0));
          } else {
            r := Err(IllegalDataValue);
          }
        case Disconnect =>
          r := Err(IllegalFunction);
      }
    }
  }
}
