/** The packet filter machine of bin/mudband/common/mudband_bpf.c: `mudband_bpf_filter`,
    `mudband_bpf_validate` and `bpf_code_map`. */
module Bpf {
  import opened Common
  import opened Bits

  const MEMU32S: nat := 16

  datatype Insn = Insn(code: nat, jt: nat, jf: nat, k: nat)

  /** The ranges of the C fields. */
  predicate WellTyped(p: Insn) {
    p.code < 0x10000 && p.jt < 0x100 && p.jf < 0x100 && p.k < U32
  }

  /** The packet: the bytes that are there and the length on the wire. `undef` stands for the
      result of shifts by 32 and more, which C leaves undefined. */
  datatype Packet = Packet(bytes: seq<nat>, wirelen: nat, undef: (nat, nat) -> nat)

  predicate GoodPacket(p: Packet) {
    |p.bytes| < U32 && p.wirelen < U32 && forall i :: 0 <= i < |p.bytes| ==> p.bytes[i] < 0x100
  }

  /** Registers and scratch memory. */
  datatype Machine = Machine(pc: nat, a: nat, x: nat, mem: seq<nat>)

  const START: Machine := Machine(0, 0, 0, seq(MEMU32S, _ => 0))

  /** What can go wrong: `abort` on an unknown opcode, an instruction outside the program, an
      access outside the packet or the scratch memory, a division by zero. */
  datatype Fault = UnknownCode | OutsideProgram | OutsidePacket | OutsideMemory | DivisionByZero

  datatype Result = Running(m: Machine) | Returned(value: nat) | Failed(fault: Fault)

  // ---------------------------------------------------------------- 32-bit arithmetic

  function Add(a: nat, b: nat): nat { (a + b) % U32 }

  function Sub(a: nat, b: nat): nat { (a - b) % U32 }

  function Mul(a: nat, b: nat): nat { (a * b) % U32 }

  function Lsh(p: Packet, a: nat, n: nat): nat {
    if n < 32 then Shl(a, n) % U32 else p.undef(a, n) % U32
  }

  function Rsh(p: Packet, a: nat, n: nat): nat {
    if n < 32 then Shr(a, n) else p.undef(a, n) % U32
  }

  // ---------------------------------------------------------------- one instruction

  function LoadByte(p: Packet, i: nat): Option<nat> {
    if i < |p.bytes| then Some(p.bytes[i]) else None
  }

  /** `size` bytes at `i`, most significant first. */
  function Load(p: Packet, i: nat, size: nat): Option<nat> {
    if size == 0 then Some(0)
    else
      match Load(p, i, size - 1)
      case None => None
      case Some(hi) =>
        match LoadByte(p, i + size - 1)
        case None => None
        case Some(lo) => Some((hi * 0x100 + lo) % U32)
  }

  function Loaded(p: Packet, m: Machine, i: nat, size: nat): Result {
    match Load(p, i, size)
    case None => Failed(OutsidePacket)
    case Some(v) => Running(m.(a := v, pc := m.pc + 1))
  }

  predicate GoodMachine(m: Machine) {
    m.a < U32 && m.x < U32 && |m.mem| == MEMU32S && forall i :: 0 <= i < MEMU32S ==> m.mem[i] < U32
  }

  function Jump(m: Machine, p: Insn, taken: bool): Result {
    Running(m.(pc := m.pc + (if taken then p.jt else p.jf) + 1))
  }

  function SetA(m: Machine, v: nat): Result { Running(m.(a := v, pc := m.pc + 1)) }

  function SetX(m: Machine, v: nat): Result { Running(m.(x := v, pc := m.pc + 1)) }

  /** BPF_LD. */
  function StepLd(p: Insn, q: Packet, m: Machine): Result
    requires GoodMachine(m) && WellTyped(p)
  {
    var buflen := |q.bytes|;
    match p.code
    case 0x20 => // W ABS
      if p.k > buflen || 4 > buflen - p.k then Returned(0) else Loaded(q, m, p.k, 4)
    case 0x28 => // H ABS
      if p.k > buflen || 2 > buflen - p.k then Returned(0) else Loaded(q, m, p.k, 2)
    case 0x30 => // B ABS
      if p.k >= buflen then Returned(0) else Loaded(q, m, p.k, 1)
    case 0x80 => SetA(m, q.wirelen)
    case 0x40 => // W IND
      var k := Add(m.x, p.k);
      if p.k > buflen || m.x > buflen - p.k || 4 > (buflen - k) % U32 then Returned(0) else Loaded(q, m, k, 4)
    case 0x48 => // H IND
      var k := Add(m.x, p.k);
      if m.x > buflen || p.k > buflen - m.x || 2 > (buflen - k) % U32 then Returned(0) else Loaded(q, m, k, 2)
    case 0x50 => // B IND
      var k := Add(m.x, p.k);
      if p.k >= buflen || m.x >= buflen - p.k then Returned(0) else Loaded(q, m, k, 1)
    case 0x00 => SetA(m, p.k)
    case 0x60 => if p.k < MEMU32S then SetA(m, m.mem[p.k]) else Failed(OutsideMemory)
    case _ => Failed(UnknownCode)
  }

  /** BPF_LDX. */
  function StepLdx(p: Insn, q: Packet, m: Machine): Result
    requires GoodMachine(m) && WellTyped(p)
  {
    match p.code
    case 0x81 => SetX(m, q.wirelen)
    case 0xb1 => // MSH
      if p.k >= |q.bytes| then Returned(0)
      else
        (match LoadByte(q, p.k)
         case None => Failed(OutsidePacket)
         case Some(b) => SetX(m, (b % 16) * 4))
    case 0x01 => SetX(m, p.k)
    case 0x61 => if p.k < MEMU32S then SetX(m, m.mem[p.k]) else Failed(OutsideMemory)
    case _ => Failed(UnknownCode)
  }

  /** BPF_ST and BPF_STX. */
  function StepSt(p: Insn, m: Machine): Result
    requires GoodMachine(m) && WellTyped(p)
  {
    if p.code != 0x02 && p.code != 0x03 then Failed(UnknownCode)
    else if p.k >= MEMU32S then Failed(OutsideMemory)
    else Running(m.(mem := m.mem[p.k := if p.code == 0x02 then m.a else m.x], pc := m.pc + 1))
  }

  /** BPF_JMP. */
  function StepJmp(p: Insn, m: Machine): Result
    requires GoodMachine(m) && WellTyped(p)
  {
    match p.code
    case 0x05 => Running(m.(pc := m.pc + p.k + 1))
    case 0x25 => Jump(m, p, m.a > p.k)
    case 0x35 => Jump(m, p, m.a >= p.k)
    case 0x15 => Jump(m, p, m.a == p.k)
    case 0x45 => Jump(m, p, And(m.a, p.k) != 0)
    case 0x2d => Jump(m, p, m.a > m.x)
    case 0x3d => Jump(m, p, m.a >= m.x)
    case 0x1d => Jump(m, p, m.a == m.x)
    case 0x4d => Jump(m, p, And(m.a, m.x) != 0)
    case _ => Failed(UnknownCode)
  }

  /** BPF_ALU. */
  function StepAlu(p: Insn, q: Packet, m: Machine): Result
    requires GoodMachine(m) && WellTyped(p)
  {
    match p.code
    case 0x0c => SetA(m, Add(m.a, m.x))
    case 0x1c => SetA(m, Sub(m.a, m.x))
    case 0x2c => SetA(m, Mul(m.a, m.x))
    case 0x3c => if m.x == 0 then Returned(0) else SetA(m, m.a / m.x)
    case 0x5c => SetA(m, And(m.a, m.x))
    case 0x4c => SetA(m, Or(m.a, m.x))
    case 0x6c => SetA(m, Lsh(q, m.a, m.x))
    case 0x7c => SetA(m, Rsh(q, m.a, m.x))
    case 0x04 => SetA(m, Add(m.a, p.k))
    case 0x14 => SetA(m, Sub(m.a, p.k))
    case 0x24 => SetA(m, Mul(m.a, p.k))
    case 0x34 => if p.k == 0 then Failed(DivisionByZero) else SetA(m, m.a / p.k)
    case 0x54 => SetA(m, And(m.a, p.k))
    case 0x44 => SetA(m, Or(m.a, p.k))
    case 0x64 => SetA(m, Lsh(q, m.a, p.k))
    case 0x74 => SetA(m, Rsh(q, m.a, p.k))
    case 0x84 => SetA(m, Sub(0, m.a))
    case _ => Failed(UnknownCode)
  }

  /** BPF_RET and BPF_MISC. */
  function StepOther(p: Insn, m: Machine): Result {
    match p.code
    case 0x06 => Returned(p.k)
    case 0x16 => Returned(m.a)
    case 0x07 => SetX(m, m.a)
    case 0x87 => SetA(m, m.x)
    case _ => Failed(UnknownCode)
  }

  /** One turn of the interpreter's loop. */
  function Step(prog: seq<Insn>, q: Packet, m: Machine): Result
    requires GoodMachine(m) && forall i :: 0 <= i < |prog| ==> WellTyped(prog[i])
  {
    if m.pc >= |prog| then Failed(OutsideProgram)
    else
      var p := prog[m.pc];
      match p.code % 8
      case 0 => StepLd(p, q, m)
      case 1 => StepLdx(p, q, m)
      case 2 => StepSt(p, m)
      case 3 => StepSt(p, m)
      case 4 => StepAlu(p, q, m)
      case 5 => StepJmp(p, m)
      case _ => StepOther(p, m)
  }

  // ---------------------------------------------------------------- runs

  predicate GoodProgram(prog: seq<Insn>) {
    forall i :: 0 <= i < |prog| ==> WellTyped(prog[i])
  }

  /** At most `n` instructions from state `m`. */
  function Run(prog: seq<Insn>, q: Packet, m: Machine, n: nat): Result
    requires GoodProgram(prog) && GoodPacket(q) && GoodMachine(m)
    decreases n
  {
    if n == 0 then Running(m)
    else
      StepGood(prog, q, m);
      match Step(prog, q, m)
      case Running(m') => Run(prog, q, m', n - 1)
      case r => r
  }

  lemma {:induction false} LoadBound(p: Packet, i: nat, size: nat)
    requires GoodPacket(p)
    ensures Load(p, i, size).Some? ==> Load(p, i, size).value < U32
  {
    if size != 0 {
      LoadBound(p, i, size - 1);
    }
  }

  /** Registers stay 32-bit values, and control only moves forward. */
  lemma StepGood(prog: seq<Insn>, q: Packet, m: Machine)
    requires GoodProgram(prog) && GoodPacket(q) && GoodMachine(m)
    ensures match Step(prog, q, m)
      case Running(m') => GoodMachine(m') && m.pc < m'.pc
      case Returned(v) => v < U32
      case Failed(_) => true
  {
    if m.pc < |prog| {
      var p := prog[m.pc];
      match p.code % 8 {
        case 0 => LdGood(p, q, m);
        case 4 => AluGood(p, q, m);
        case _ =>
      }
    }
    hide StepLd, StepAlu;
  }

  lemma LdGood(p: Insn, q: Packet, m: Machine)
    requires WellTyped(p) && GoodPacket(q) && GoodMachine(m)
    ensures match StepLd(p, q, m)
      case Running(m') => GoodMachine(m') && m.pc < m'.pc
      case Returned(v) => v < U32
      case Failed(_) => true
  {
    LoadedGood(q, m, p.k);
    LoadedGood(q, m, Add(m.x, p.k));
    hide Loaded;
  }

  lemma LoadedGood(q: Packet, m: Machine, i: nat)
    requires GoodPacket(q) && GoodMachine(m)
    ensures forall size: nat :: Loaded(q, m, i, size).Failed? ||
              (Loaded(q, m, i, size).Running? && GoodMachine(Loaded(q, m, i, size).m)
                && Loaded(q, m, i, size).m.pc == m.pc + 1)
  {
    forall size: nat
      ensures Loaded(q, m, i, size).Failed? ||
              (Loaded(q, m, i, size).Running? && GoodMachine(Loaded(q, m, i, size).m)
                && Loaded(q, m, i, size).m.pc == m.pc + 1)
    {
      LoadBound(q, i, size);
    }
  }

  lemma AluGood(p: Insn, q: Packet, m: Machine)
    requires WellTyped(p) && GoodPacket(q) && GoodMachine(m)
    ensures match StepAlu(p, q, m)
      case Running(m') => GoodMachine(m') && m.pc < m'.pc
      case Returned(v) => v < U32
      case Failed(_) => true
  {
    hide Add, Sub, Mul, And, Or, Lsh, Rsh;
    if m.x != 0 { Quotient(m.a, m.x); }
    if p.k != 0 { Quotient(m.a, p.k); }
    AluBounds(q, m, m.x);
    AluBounds(q, m, p.k);
    AluBounds(q, m.(a := 0), m.a);
  }

  lemma AluBounds(q: Packet, m: Machine, b: nat)
    requires GoodMachine(m) && b < U32
    ensures Add(m.a, b) < U32 && Sub(m.a, b) < U32 && Mul(m.a, b) < U32 && And(m.a, b) < U32 && Or(m.a, b) < U32
    ensures Lsh(q, m.a, b) < U32 && Rsh(q, m.a, b) < U32
  {
    hide Shl, Shr, And, Or;
    AndBound(m.a, b);
    WordIsPow2();
    OrBound(m.a, b, 32);
    if b < 32 {
      ShrDiv(m.a, b);
    }
  }

  lemma WordIsPow2()
    ensures Pow2(32) == U32
  {
    Powers();
    ShlShl(1, 16, 16);
    assert Shl(65536, 8) == 16777216;
    ShlShl(65536, 8, 8);
    assert Shl(16777216, 8) == U32;
  }

  lemma Quotient(a: nat, b: nat)
    requires b != 0
    ensures a / b <= a
  {
    Product(a / b, b);
  }

  lemma {:induction false} Product(q: nat, b: nat)
    requires b != 0
    ensures q <= q * b
  {
    if b > 1 {
      Product(q, b - 1);
      assert q * b == q * (b - 1) + q;
    }
  }

  // ---------------------------------------------------------------- the code map

  const CODE_MAP: seq<nat> := [
    0x10ff, 0x3070, 0x3131, 0x3031, 0x3131, 0x1011, 0x1013, 0x1010,
    0x0093, 0x0000, 0x0000, 0x0002, 0x0000, 0x0000, 0x0000, 0x0000]

  /** `BPF_VALIDATE_CODE`. */
  predicate InCodeMap(c: nat) {
    c <= 0xff && Bit(CODE_MAP[c / 16], c % 16)
  }

  /** The `case` labels of the interpreter. */
  predicate IsCase(c: nat) {
    || c == 0x06 || c == 0x16 || c == 0x20 || c == 0x28 || c == 0x30 || c == 0x80 || c == 0x81 || c == 0x40
    || c == 0x48 || c == 0x50 || c == 0xb1 || c == 0x00 || c == 0x01 || c == 0x60 || c == 0x61 || c == 0x02
    || c == 0x03 || c == 0x05 || c == 0x25 || c == 0x35 || c == 0x15 || c == 0x45 || c == 0x2d || c == 0x3d
    || c == 0x1d || c == 0x4d || c == 0x0c || c == 0x1c || c == 0x2c || c == 0x3c || c == 0x5c || c == 0x4c
    || c == 0x6c || c == 0x7c || c == 0x04 || c == 0x14 || c == 0x24 || c == 0x34 || c == 0x54 || c == 0x44
    || c == 0x64 || c == 0x74 || c == 0x84 || c == 0x07 || c == 0x87
  }

  /** Bits beyond the lowest four. */
  lemma BitUp(x: nat, b: nat)
    requires 4 <= b
    ensures Bit(x, b) == Bit(x / 16, b - 4)
  {
    assert x / 2 / 2 == x / 4 && x / 4 / 2 == x / 8 && x / 8 / 2 == x / 16;
    assert Bit(x, b) == Bit(x / 2, b - 1) == Bit(x / 4, b - 2) == Bit(x / 8, b - 3) == Bit(x / 16, b - 4);
  }

  lemma BitLow(x: nat, b: nat)
    requires b < 4
    ensures Bit(x, b) == (if b == 0 then x % 2 == 1 else if b == 1 then x / 2 % 2 == 1
                          else if b == 2 then x / 4 % 2 == 1 else x / 8 % 2 == 1)
  {
    assert x / 2 / 2 == x / 4 && x / 4 / 2 == x / 8;
    assert b == 1 ==> Bit(x, b) == Bit(x / 2, 0);
    assert b == 2 ==> Bit(x, b) == Bit(x / 2, 1) == Bit(x / 4, 0);
    assert b == 3 ==> Bit(x, b) == Bit(x / 2, 2) == Bit(x / 4, 1) == Bit(x / 8, 0);
  }

  /** Bit `b` of a row of the map, from its four digits. */
  lemma RowBit(x: nat, b: nat, d: nat)
    requires b < 16 && d == (if b < 4 then x else if b < 8 then x / 16 else if b < 12 then x / 256 else x / 4096)
    ensures Bit(x, b) == (if b % 4 == 0 then d % 2 == 1 else if b % 4 == 1 then d / 2 % 2 == 1
                          else if b % 4 == 2 then d / 4 % 2 == 1 else d / 8 % 2 == 1)
  {
    assert x / 16 / 16 == x / 256 && x / 256 / 16 == x / 4096;
    BitLow(d, b % 4);
    if 4 <= b { BitUp(x, b); }
    if 8 <= b { BitUp(x / 16, b - 4); }
    if 12 <= b { BitUp(x / 256, b - 8); }
  }

  /** The rows of the map as sets of bits. */
  lemma Row10ff(b: nat)
    requires b < 16
    ensures Bit(0x10ff, b) <==> b in {0, 1, 2, 3, 4, 5, 6, 7, 12}
  {
    RowBit(0x10ff, b, if b < 4 then 0x10ff else if b < 8 then 0x010f else if b < 12 then 0x0010 else 0x0001);
    hide Bit;
  }

  lemma Row3070(b: nat)
    requires b < 16
    ensures Bit(0x3070, b) <==> b in {4, 5, 6, 12, 13}
  {
    RowBit(0x3070, b, if b < 4 then 0x3070 else if b < 8 then 0x0307 else if b < 12 then 0x0030 else 0x0003);
    hide Bit;
  }

  lemma Row3131(b: nat)
    requires b < 16
    ensures Bit(0x3131, b) <==> b in {0, 4, 5, 8, 12, 13}
  {
    RowBit(0x3131, b, if b < 4 then 0x3131 else if b < 8 then 0x0313 else if b < 12 then 0x0031 else 0x0003);
    hide Bit;
  }

  lemma Row3031(b: nat)
    requires b < 16
    ensures Bit(0x3031, b) <==> b in {0, 4, 5, 12, 13}
  {
    RowBit(0x3031, b, if b < 4 then 0x3031 else if b < 8 then 0x0303 else if b < 12 then 0x0030 else 0x0003);
    hide Bit;
  }

  lemma Row1011(b: nat)
    requires b < 16
    ensures Bit(0x1011, b) <==> b in {0, 4, 12}
  {
    RowBit(0x1011, b, if b < 4 then 0x1011 else if b < 8 then 0x0101 else if b < 12 then 0x0010 else 0x0001);
    hide Bit;
  }

  lemma Row1013(b: nat)
    requires b < 16
    ensures Bit(0x1013, b) <==> b in {0, 1, 4, 12}
  {
    RowBit(0x1013, b, if b < 4 then 0x1013 else if b < 8 then 0x0101 else if b < 12 then 0x0010 else 0x0001);
    hide Bit;
  }

  lemma Row1010(b: nat)
    requires b < 16
    ensures Bit(0x1010, b) <==> b in {4, 12}
  {
    RowBit(0x1010, b, if b < 4 then 0x1010 else if b < 8 then 0x0101 else if b < 12 then 0x0010 else 0x0001);
    hide Bit;
  }

  lemma Row0093(b: nat)
    requires b < 16
    ensures Bit(0x0093, b) <==> b in {0, 1, 4, 7}
  {
    RowBit(0x0093, b, if b < 4 then 0x0093 else if b < 8 then 0x0009 else if b < 12 then 0x0000 else 0x0000);
    hide Bit;
  }

  lemma Row0002(b: nat)
    requires b < 16
    ensures Bit(0x0002, b) <==> b in {1}
  {
    RowBit(0x0002, b, if b < 4 then 0x0002 else if b < 8 then 0x0000 else if b < 12 then 0x0000 else 0x0000);
    hide Bit;
  }

  /** Row `r` of the map is the case labels `16 * r` to `16 * r + 15`. */
  lemma RowIsCases(r: nat, b: nat)
    requires r < 16 && b < 16
    ensures Bit(CODE_MAP[r], b) <==> IsCase(16 * r + b)
  {
    hide Bit;
    match r {
      case 0 => Row10ff(b);
      case 1 => Row3070(b);
      case 2 => Row3131(b);
      case 3 => Row3031(b);
      case 4 => Row3131(b);
      case 5 => Row1011(b);
      case 6 => Row1013(b);
      case 7 => Row1010(b);
      case 8 => Row0093(b);
      case 9 => BitZero(b);
      case 10 => BitZero(b);
      case 11 => Row0002(b);
      case 12 => BitZero(b);
      case 13 => BitZero(b);
      case 14 => BitZero(b);
      case 15 => BitZero(b);
    }
  }

  /** The map accepts exactly the interpreter's case labels. */
  lemma CodeMapIsCases(c: nat)
    ensures InCodeMap(c) <==> IsCase(c)
  {
    if c <= 0xff {
      RowIsCases(c / 16, c % 16);
    }
  }

  /** ... and the interpreter gives up on exactly the other codes. */
  lemma UnknownCodes(prog: seq<Insn>, q: Packet, m: Machine)
    requires GoodProgram(prog) && GoodPacket(q) && GoodMachine(m) && m.pc < |prog|
    ensures Step(prog, q, m) == Failed(UnknownCode) <==> !InCodeMap(prog[m.pc].code)
  {
    CodeMapIsCases(prog[m.pc].code);
    var p := prog[m.pc];
    UnknownLd(p, q, m);
    UnknownAlu(p, q, m);
    UnknownJmp(p, m);
    hide Bit, InCodeMap, StepLd, StepAlu, StepJmp;
  }

  lemma UnknownLd(p: Insn, q: Packet, m: Machine)
    requires GoodMachine(m) && WellTyped(p)
    ensures p.code % 8 == 0 ==> (StepLd(p, q, m) == Failed(UnknownCode) <==> !IsCase(p.code))
  {
    hide Load, Add;
  }

  lemma UnknownAlu(p: Insn, q: Packet, m: Machine)
    requires GoodMachine(m) && WellTyped(p)
    ensures p.code % 8 == 4 ==> (StepAlu(p, q, m) == Failed(UnknownCode) <==> !IsCase(p.code))
  {
    hide And, Or, Lsh, Rsh, Add, Sub, Mul;
  }

  lemma UnknownJmp(p: Insn, m: Machine)
    requires GoodMachine(m) && WellTyped(p)
    ensures p.code % 8 == 5 ==> (StepJmp(p, m) == Failed(UnknownCode) <==> !IsCase(p.code))
  {
    hide And;
  }

  // ---------------------------------------------------------------- the validator

  /** The jump targets of instruction `i` lie in the program. */
  predicate JumpsInside(prog: seq<Insn>, i: nat)
    requires i < |prog|
  {
    var p := prog[i];
    if p.code == 0x05 then i + 1 + p.k < |prog| else i + 1 + p.jt < |prog| && i + 1 + p.jf < |prog|
  }

  predicate UsesMemory(code: nat) {
    code == 0x02 || code == 0x03 || code == 0x60 || code == 0x61
  }

  /** Instruction `i` cannot fault, whatever the registers hold. */
  predicate Allowed(prog: seq<Insn>, i: nat)
    requires i < |prog|
  {
    var p := prog[i];
    && IsCase(p.code)
    && (p.code % 8 == 5 ==> JumpsInside(prog, i))
    && (UsesMemory(p.code) ==> p.k < MEMU32S)
    && (p.code == 0x34 ==> p.k != 0)
  }

  predicate EndsInReturn(prog: seq<Insn>) {
    |prog| != 0 && prog[|prog| - 1].code % 8 == 6
  }

  predicate Accepted(prog: seq<Insn>) {
    prog == [] || ((forall i :: 0 <= i < |prog| ==> Allowed(prog, i)) && EndsInReturn(prog))
  }

  /** `mudband_bpf_validate`. */
  method Validate(f: seq<Insn>, len: int) returns (ok: bool)
    requires len <= |f| && GoodProgram(f)
    ensures ok <==> 0 <= len && Accepted(f[..len])
  {
    if len < 0 {
      return false;
    }
    if len == 0 {
      return true;
    }
    ghost var prog := f[..len];
    for i := 0 to len
      invariant forall j :: 0 <= j < i ==> Allowed(prog, j)
    {
      var p := f[i];
      assert prog[i] == p;
      CodeMapIsCases(p.code);
      if !InCodeMap(p.code) {
        assert !Allowed(prog, i);
        return false;
      }
      if p.code % 8 == 5 {
        var offset := if p.code == 0x05 then p.k else if p.jt > p.jf then p.jt else p.jf;
        if offset >= len - i - 1 {
          assert !Allowed(prog, i);
          return false;
        }
        continue;
      }
      if UsesMemory(p.code) {
        if p.k >= MEMU32S {
          assert !Allowed(prog, i);
          return false;
        }
        continue;
      }
      if p.code == 0x34 && p.k == 0 {
        assert !Allowed(prog, i);
        return false;
      }
    }
    return f[len - 1].code % 8 == 6;
  }

  // ---------------------------------------------------------------- soundness

  /** Loads that the interpreter lets through stay inside the packet. */
  lemma {:induction false} LoadInside(p: Packet, i: nat, size: nat)
    requires i + size <= |p.bytes|
    ensures Load(p, i, size).Some?
  {
    if size != 0 {
      LoadInside(p, i, size - 1);
    }
  }

  lemma LdSafe(p: Insn, q: Packet, m: Machine)
    requires WellTyped(p) && GoodPacket(q) && GoodMachine(m) && IsCase(p.code) && p.code % 8 == 0
    requires (p.code == 0x60 ==> p.k < MEMU32S)
    ensures !StepLd(p, q, m).Failed?
    ensures StepLd(p, q, m).Running? ==> StepLd(p, q, m).m.pc == m.pc + 1
  {
    var n, k := |q.bytes|, Add(m.x, p.k);
    LoadedInside(q, m, p.k);
    LoadedInside(q, m, k);
    hide Loaded;
    assert m.x + p.k <= n ==> k == m.x + p.k && (n - k) % U32 == n - k;
  }

  lemma LoadedInside(q: Packet, m: Machine, i: nat)
    ensures forall size: nat :: i + size <= |q.bytes| ==>
      Loaded(q, m, i, size).Running? && Loaded(q, m, i, size).m.pc == m.pc + 1
  {
    forall size: nat | i + size <= |q.bytes|
      ensures Loaded(q, m, i, size).Running? && Loaded(q, m, i, size).m.pc == m.pc + 1
    {
      LoadInside(q, i, size);
    }
  }

  /** An accepted instruction does not fault, and control stays inside the program. */
  lemma StepSafe(prog: seq<Insn>, q: Packet, m: Machine)
    requires GoodProgram(prog) && GoodPacket(q) && GoodMachine(m) && m.pc < |prog| && Allowed(prog, m.pc)
    ensures !Step(prog, q, m).Failed?
    ensures Step(prog, q, m).Running? ==> Step(prog, q, m).m.pc == m.pc + 1 || Step(prog, q, m).m.pc < |prog|
    ensures prog[m.pc].code % 8 == 6 ==> Step(prog, q, m).Returned?
  {
    var p := prog[m.pc];
    if p.code % 8 == 0 {
      LdSafe(p, q, m);
      hide StepLd;
    } else {
      hide StepLd, Add, Sub, Mul, And, Or, Lsh, Rsh, Load;
    }
  }

  /** Every non-empty accepted program, on every packet, returns within as many steps as it
      has instructions, without any fault. */
  lemma {:induction false} Sound(prog: seq<Insn>, q: Packet, m: Machine, n: nat)
    requires GoodProgram(prog) && GoodPacket(q) && GoodMachine(m) && Accepted(prog)
    requires m.pc < |prog| <= m.pc + n
    ensures Run(prog, q, m, n).Returned? && Run(prog, q, m, n).value < U32
    decreases n
  {
    hide Step, Allowed;
    StepSafe(prog, q, m);
    StepGood(prog, q, m);
    if Step(prog, q, m).Running? {
      Sound(prog, q, Step(prog, q, m).m, n - 1);
    }
  }

  /** Registers hold 32-bit values at the start. */
  lemma StartGood()
    ensures GoodMachine(START) && START.pc == 0
  {
  }

  /** The interpreter's loop: it always ends, in a return or a fault. */
  method Interpret(f: seq<Insn>, q: Packet) returns (r: Result)
    requires GoodPacket(q) && GoodProgram(f)
    ensures GoodMachine(START) && r == Run(f, q, START, |f| + 1) && !r.Running?
  {
    StartGood();
    hide Step, GoodMachine, GoodPacket;
    var m := START;
    ghost var left: nat := |f| + 1;
    while true
      invariant GoodMachine(m) && 1 <= left && left + m.pc >= |f| + 1
      invariant Run(f, q, START, |f| + 1) == Run(f, q, m, left)
      decreases left
    {
      StepGood(f, q, m);
      PastEnd(f, q, m);
      r := Step(f, q, m);
      if !r.Running? {
        return;
      }
      m := r.m;
      left := left - 1;
    }
  }

  /** `mudband_bpf_filter`. Without a program every packet is accepted; an accepted program
      returns within as many steps as it has instructions. */
  method Filter(prog: Option<seq<Insn>>, q: Packet) returns (r: Result)
    requires GoodPacket(q) && (prog.Some? ==> GoodProgram(prog.value))
    ensures prog.None? ==> r == Returned(U32 - 1)
    ensures prog.Some? ==> GoodMachine(START) && r == Run(prog.value, q, START, |prog.value| + 1) && !r.Running?
    ensures prog.Some? && prog.value != [] && Accepted(prog.value) ==>
      r.Returned? && r == Run(prog.value, q, START, |prog.value|)
  {
    if prog.None? {
      return Returned(U32 - 1);
    }
    hide Step, Run, GoodMachine, GoodProgram, Accepted;
    var f := prog.value;
    StartGood();
    r := Interpret(f, q);
    if f != [] && Accepted(f) {
      Sound(f, q, START, |f|);
      RunMore(f, q, START, |f|);
    }
  }

  lemma PastEnd(prog: seq<Insn>, q: Packet, m: Machine)
    requires GoodProgram(prog) && GoodMachine(m)
    ensures m.pc >= |prog| ==> Step(prog, q, m) == Failed(OutsideProgram)
  {
  }

  lemma {:induction false} RunMore(prog: seq<Insn>, q: Packet, m: Machine, n: nat)
    requires GoodProgram(prog) && GoodPacket(q) && GoodMachine(m) && !Run(prog, q, m, n).Running?
    ensures Run(prog, q, m, n + 1) == Run(prog, q, m, n)
    decreases n
  {
    hide Step;
    StepGood(prog, q, m);
    if n != 0 && Step(prog, q, m).Running? {
      RunMore(prog, q, Step(prog, q, m).m, n - 1);
    }
  }
}
