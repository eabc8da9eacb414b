/** What the instructions of bin/mudband/common/mudband_bpf.c compute, stated by the fields of
    the opcode: the class in the lowest three bits, the operand in bit 3, the operation in the
    upper half; for loads the size in bits 3 and 4 and the mode above. */
module BpfMeaning {
  import opened Common
  import opened Bits
  import opened Bpf

  /** The second operand: register X if bit 3 is set, else the constant. */
  function Operand(p: Insn, m: Machine): nat {
    if p.code / 8 % 2 == 1 then m.x else p.k
  }

  function Operation(p: Insn): nat {
    p.code / 16
  }

  /** The program is at instruction `p`, whose code is known. */
  ghost predicate At(prog: seq<Insn>, q: Packet, m: Machine, p: Insn) {
    && GoodProgram(prog) && GoodPacket(q) && GoodMachine(m) && m.pc < |prog| && prog[m.pc] == p && InCodeMap(p.code)
  }

  lemma KnownCode(prog: seq<Insn>, q: Packet, m: Machine, p: Insn)
    requires At(prog, q, m, p)
    ensures IsCase(p.code) && p.code < 256 && WellTyped(p)
  {
    CodeMapIsCases(p.code);
    hide InCodeMap;
  }

  // ---------------------------------------------------------------- jumps

  /** The relation that a jump tests. */
  ghost predicate Holds(op: nat, a: nat, b: nat) {
    || (op == 1 && a == b)
    || (op == 2 && a > b)
    || (op == 3 && a >= b)
    || (op == 4 && Share(a, b))
  }

  /** A bit is set in both words. */
  ghost predicate Share(a: nat, b: nat) {
    exists d: nat :: Bit(a, d) && Bit(b, d)
  }

  lemma CommonBit(a: nat, b: nat)
    ensures And(a, b) != 0 <==> Share(a, b)
  {
    if And(a, b) != 0 {
      var d := SomeBit(And(a, b));
      BitAnd(a, b, d);
    }
    forall d: nat | Bit(a, d) && Bit(b, d)
      ensures And(a, b) != 0
    {
      BitAnd(a, b, d);
      BitZero(d);
    }
  }

  /** A jump goes on behind itself, by `k` if it is unconditional, by `jt` if its relation
      holds, and by `jf` if not. It changes nothing else. */
  lemma Jumps(prog: seq<Insn>, q: Packet, m: Machine, p: Insn)
    requires At(prog, q, m, p) && p.code % 8 == 5
    ensures var far := if Operation(p) == 0 then p.k else if Holds(Operation(p), m.a, Operand(p, m)) then p.jt
      else p.jf;
      Step(prog, q, m) == Running(m.(pc := m.pc + 1 + far))
  {
    KnownCode(prog, q, m, p);
    CommonBit(m.a, m.x);
    CommonBit(m.a, p.k);
    JumpCases(p, m);
    hide IsCase, StepJmp, And, Holds, InCodeMap, Share;
  }

  /** The same with the test of `BPF_JSET` as a mask. */
  lemma JumpCases(p: Insn, m: Machine)
    requires WellTyped(p) && GoodMachine(m) && IsCase(p.code) && p.code % 8 == 5
    requires (And(m.a, m.x) != 0 <==> Share(m.a, m.x)) && (And(m.a, p.k) != 0 <==> Share(m.a, p.k))
    ensures var far := if Operation(p) == 0 then p.k else if Holds(Operation(p), m.a, Operand(p, m)) then p.jt
      else p.jf;
      StepJmp(p, m) == Running(m.(pc := m.pc + 1 + far))
  {
    hide And, Share;
  }

  // ---------------------------------------------------------------- arithmetic

  /** `v` is the result of the operation on 32-bit words. */
  ghost predicate Computes(op: nat, a: nat, b: nat, v: nat) {
    && v < U32
    && (op == 0 ==> v == (a + b) % 0x1_0000_0000)
    && (op == 1 ==> v == (a - b) % 0x1_0000_0000)
    && (op == 2 ==> v == (a * b) % 0x1_0000_0000)
    && (op == 3 ==> b != 0 && v == a / b)
    && (op == 4 ==> forall d: nat :: Bit(v, d) <==> Bit(a, d) || Bit(b, d))
    && (op == 5 ==> forall d: nat :: Bit(v, d) <==> Bit(a, d) && Bit(b, d))
    && (op == 6 && b < 32 ==> v == (a * Pow2(b)) % 0x1_0000_0000)
    && (op == 7 && b < 32 ==> 0 < Pow2(b) && v == a / Pow2(b))
    && (op == 8 ==> v == (0 - a) % 0x1_0000_0000)
  }

  lemma Words(q: Packet, m: Machine, b: nat)
    requires GoodMachine(m) && b < U32
    ensures Computes(0, m.a, b, Add(m.a, b)) && Computes(1, m.a, b, Sub(m.a, b)) && Computes(2, m.a, b, Mul(m.a, b))
    ensures Computes(8, m.a, b, Sub(0, m.a))
    ensures Computes(4, m.a, b, Or(m.a, b)) && Computes(5, m.a, b, And(m.a, b))
    ensures Computes(6, m.a, b, Lsh(q, m.a, b)) && Computes(7, m.a, b, Rsh(q, m.a, b))
  {
    hide And, Or, Bit, Shl, Shr;
    AluBounds(q, m, b);
    AluBounds(q, m.(a := 0), m.a);
    forall d: nat
      ensures Bit(Or(m.a, b), d) == (Bit(m.a, d) || Bit(b, d)) && Bit(And(m.a, b), d) == (Bit(m.a, d) && Bit(b, d))
    {
      BitOr(m.a, b, d);
      BitAnd(m.a, b, d);
    }
    if b < 32 {
      ShlMul(m.a, b);
      ShrDiv(m.a, b);
    }
  }

  lemma Divides(a: nat, b: nat)
    requires a < U32 && 0 < b
    ensures Computes(3, a, b, a / b)
  {
    Quotient(a, b);
  }

  /** An arithmetic instruction puts the result of its operation on A and the operand into A.
      Dividing by a zero X ends the program with 0. */
  lemma Arithmetic(prog: seq<Insn>, q: Packet, m: Machine, p: Insn)
    requires At(prog, q, m, p) && p.code % 8 == 4
    ensures var op, b, r := Operation(p), Operand(p, m), Step(prog, q, m);
      if op == 3 && b == 0 then r == if p.code / 8 % 2 == 1 then Returned(0) else Failed(DivisionByZero)
      else r.Running? && r.m == m.(a := r.m.a, pc := m.pc + 1) && op <= 8 && Computes(op, m.a, b, r.m.a)
  {
    KnownCode(prog, q, m, p);
    hide Computes, IsCase, StepAlu, InCodeMap;
    AluCases(p, q, m);
  }

  lemma AluCases(p: Insn, q: Packet, m: Machine)
    requires WellTyped(p) && GoodMachine(m) && IsCase(p.code) && p.code % 8 == 4
    ensures var op, b, r := Operation(p), Operand(p, m), StepAlu(p, q, m);
      if op == 3 && b == 0 then r == if p.code / 8 % 2 == 1 then Returned(0) else Failed(DivisionByZero)
      else r.Running? && r.m == m.(a := r.m.a, pc := m.pc + 1) && op <= 8 && Computes(op, m.a, b, r.m.a)
  {
    hide Computes, Add, Sub, Mul, And, Or, Lsh, Rsh;
    Words(q, m, m.x);
    Words(q, m, p.k);
    if m.x != 0 { Divides(m.a, m.x); }
    if p.k != 0 { Divides(m.a, p.k); }
  }

  // ---------------------------------------------------------------- loads and stores

  /** `n` bytes at `i` as a number, the first byte counting most. */
  ghost function BigEndian(bytes: seq<nat>, i: nat, n: nat): nat
    requires i + n <= |bytes|
    decreases n
  {
    if n == 0 then 0 else bytes[i] * Power256(n - 1) + BigEndian(bytes, i + 1, n - 1)
  }

  ghost function Power256(n: nat): nat {
    if n == 0 then 1 else 256 * Power256(n - 1)
  }

  lemma LoadIs(q: Packet, i: nat, n: nat)
    requires GoodPacket(q) && 1 <= n <= 4 && i + n <= |q.bytes|
    ensures n in {1, 2, 4} ==> Load(q, i, n) == Some(BigEndian(q.bytes, i, n))
  {
    var b := q.bytes;
    assert Power256(0) == 1 && Power256(1) == 256 && Power256(2) == 65536 && Power256(3) == 16777216;
    if n == 1 {
      OneByte(q, i);
    } else if n == 2 {
      TwoBytes(q, i);
    } else if n == 4 {
      FourBytes(q, i);
    }
  }

  lemma OneByte(q: Packet, i: nat)
    requires GoodPacket(q) && i + 1 <= |q.bytes|
    ensures Load(q, i, 1) == Some(q.bytes[i]) && BigEndian(q.bytes, i, 1) == q.bytes[i]
  {
    assert Load(q, i, 0) == Some(0);
    assert BigEndian(q.bytes, i + 1, 0) == 0 && Power256(0) == 1;
  }

  lemma TwoBytes(q: Packet, i: nat)
    requires GoodPacket(q) && i + 2 <= |q.bytes|
    ensures Load(q, i, 2) == Some(q.bytes[i] * 256 + q.bytes[i + 1])
    ensures BigEndian(q.bytes, i, 2) == q.bytes[i] * 256 + q.bytes[i + 1]
  {
    OneByte(q, i);
    OneByte(q, i + 1);
    assert Power256(1) == 256 * Power256(0);
    assert Load(q, i, 2) == Some((q.bytes[i] * 256 + q.bytes[i + 1]) % U32);
  }

  lemma FourBytes(q: Packet, i: nat)
    requires GoodPacket(q) && i + 4 <= |q.bytes|
    ensures Load(q, i, 4) == Some(BigEndian(q.bytes, i, 4))
  {
    hide BigEndian, Load;
    TwoBytes(q, i);
    LoadNext(q, i, 2);
    LoadNext(q, i, 3);
    BigFour(q.bytes, i);
  }

  lemma BigFour(b: seq<nat>, i: nat)
    requires i + 4 <= |b|
    ensures BigEndian(b, i, 4) == ((b[i] * 256 + b[i + 1]) * 256 + b[i + 2]) * 256 + b[i + 3]
  {
    assert Power256(1) == 256 && Power256(2) == 65536 && Power256(3) == 16777216;
    assert BigEndian(b, i + 3, 1) == b[i + 3];
    assert BigEndian(b, i + 2, 2) == b[i + 2] * 256 + BigEndian(b, i + 3, 1);
    assert BigEndian(b, i + 1, 3) == b[i + 1] * 65536 + BigEndian(b, i + 2, 2);
    assert BigEndian(b, i, 4) == b[i] * 16777216 + BigEndian(b, i + 1, 3);
  }

  lemma LoadNext(q: Packet, i: nat, n: nat)
    requires i + n < |q.bytes| && Load(q, i, n).Some?
    ensures Load(q, i, n + 1) == Some((Load(q, i, n).value * 256 + q.bytes[i + n]) % U32)
  {
  }

  /** How many bytes a load takes: the size field counts words, halves and bytes. */
  function Size(p: Insn): nat {
    if p.code / 8 % 4 == 0 then 4 else if p.code / 8 % 4 == 1 then 2 else 1
  }

  function Mode(p: Insn): nat {
    p.code / 32
  }

  /** Loads from the packet, at `k` or at X plus `k`, end the program with 0 where they do not
      fit into it. The others take the constant, a cell of memory or the length. */
  lemma Loads(prog: seq<Insn>, q: Packet, m: Machine, p: Insn)
    requires At(prog, q, m, p) && p.code % 8 == 0
    ensures var n, r := Size(p), Step(prog, q, m);
      var i := if Mode(p) == 2 then m.x + p.k else p.k;
      && (Mode(p) in {1, 2} ==>
            r == if i + n <= |q.bytes| then Running(m.(a := BigEndian(q.bytes, i, n), pc := m.pc + 1)) else Returned(0))
      && (Mode(p) == 0 ==> r == Running(m.(a := p.k, pc := m.pc + 1)))
      && (Mode(p) == 3 ==>
        r == if p.k < 16 then Running(m.(a := m.mem[p.k], pc := m.pc + 1)) else Failed(OutsideMemory))
      && (Mode(p) == 4 ==> r == Running(m.(a := q.wirelen, pc := m.pc + 1)))
      && Mode(p) <= 4
  {
    KnownCode(prog, q, m, p);
    hide IsCase, StepLd, InCodeMap, BigEndian;
    LoadCases(p, q, m);
  }

  /** Reading at `i`, from Load's point of view. */
  lemma LoadedIs(q: Packet, m: Machine, i: nat, n: nat)
    requires GoodPacket(q) && n in {1, 2, 4} && i + n <= |q.bytes|
    ensures Loaded(q, m, i, n) == Running(m.(a := BigEndian(q.bytes, i, n), pc := m.pc + 1))
  {
    hide Load, BigEndian;
    LoadIs(q, i, n);
  }

  lemma LoadCases(p: Insn, q: Packet, m: Machine)
    requires WellTyped(p) && GoodPacket(q) && GoodMachine(m) && IsCase(p.code) && p.code % 8 == 0
    ensures var n, r := Size(p), StepLd(p, q, m);
      var i := if Mode(p) == 2 then m.x + p.k else p.k;
      && (Mode(p) in {1, 2} ==>
            r == if i + n <= |q.bytes| then Running(m.(a := BigEndian(q.bytes, i, n), pc := m.pc + 1)) else Returned(0))
      && (Mode(p) == 0 ==> r == Running(m.(a := p.k, pc := m.pc + 1)))
      && (Mode(p) == 3 ==>
        r == if p.k < 16 then Running(m.(a := m.mem[p.k], pc := m.pc + 1)) else Failed(OutsideMemory))
      && (Mode(p) == 4 ==> r == Running(m.(a := q.wirelen, pc := m.pc + 1)))
      && Mode(p) <= 4
  {
    hide Loaded, BigEndian;
    var n := Size(p);
    var i := if Mode(p) == 2 then m.x + p.k else p.k;
    if i + n <= |q.bytes| {
      LoadedIs(q, m, i, n);
    }
    if m.x + p.k <= |q.bytes| {
      assert Add(m.x, p.k) == m.x + p.k && (|q.bytes| - (m.x + p.k)) % U32 == |q.bytes| - (m.x + p.k);
    }
  }

  /** Loads into X. The last is four times the low half of a byte, the length of an IPv4
      header. */
  lemma IndexLoads(prog: seq<Insn>, q: Packet, m: Machine, p: Insn)
    requires At(prog, q, m, p) && p.code % 8 == 1
    ensures var r := Step(prog, q, m);
      && (Mode(p) == 0 ==> r == Running(m.(x := p.k, pc := m.pc + 1)))
      && (Mode(p) == 3 ==>
        r == if p.k < 16 then Running(m.(x := m.mem[p.k], pc := m.pc + 1)) else Failed(OutsideMemory))
      && (Mode(p) == 4 ==> r == Running(m.(x := q.wirelen, pc := m.pc + 1)))
      && (Mode(p) == 5 ==>
            r == if p.k < |q.bytes| then Running(m.(x := 4 * (q.bytes[p.k] % 16), pc := m.pc + 1)) else Returned(0))
      && Mode(p) in {0, 3, 4, 5}
  {
    KnownCode(prog, q, m, p);
    hide InCodeMap;
  }

  lemma StoreCodes(c: nat)
    requires IsCase(c)
    ensures c % 8 in {2, 3} ==> c in {0x02, 0x03}
  {
  }

  lemma OtherCodes(c: nat)
    requires IsCase(c)
    ensures c % 8 in {6, 7} ==> c in {0x06, 0x16, 0x07, 0x87}
  {
  }

  /** Stores change one cell of memory: class 2 stores A, class 3 stores X. */
  lemma Stores(prog: seq<Insn>, q: Packet, m: Machine, p: Insn)
    requires At(prog, q, m, p) && p.code % 8 in {2, 3}
    ensures var r := Step(prog, q, m);
      if p.k < 16 then
        && r.Running? && r.m == m.(mem := r.m.mem, pc := m.pc + 1) && |r.m.mem| == 16
        && r.m.mem[p.k] == (if p.code % 8 == 2 then m.a else m.x)
        && forall i :: 0 <= i < 16 && i != p.k ==> r.m.mem[i] == m.mem[i]
      else r == Failed(OutsideMemory)
  {
    KnownCode(prog, q, m, p);
    StoreCodes(p.code);
    hide InCodeMap, IsCase, StepLd, StepLdx, StepAlu, StepJmp, StepOther;
  }

  /** Returns give the constant or A (bit 4); TAX and TXA (bit 7) copy one register. */
  lemma Others(prog: seq<Insn>, q: Packet, m: Machine, p: Insn)
    requires At(prog, q, m, p) && p.code % 8 in {6, 7}
    ensures p.code % 8 == 6 ==> Step(prog, q, m) == Returned(if p.code / 16 % 2 == 1 then m.a else p.k)
    ensures p.code % 8 == 7 && p.code / 128 == 0 ==> Step(prog, q, m) == Running(m.(x := m.a, pc := m.pc + 1))
    ensures p.code % 8 == 7 && p.code / 128 == 1 ==> Step(prog, q, m) == Running(m.(a := m.x, pc := m.pc + 1))
  {
    KnownCode(prog, q, m, p);
    OtherCodes(p.code);
    hide InCodeMap, IsCase, StepLd, StepLdx, StepAlu, StepJmp, StepSt;
  }

  // ---------------------------------------------------------------- the validator

  /** For an instruction that is not a jump, the validator refuses exactly what can fault. */
  lemma RefusedFaults(prog: seq<Insn>, i: nat)
    requires GoodProgram(prog) && i < |prog| && prog[i].code % 8 != 5
    ensures Allowed(prog, i) <==>
      forall q, m :: GoodPacket(q) && GoodMachine(m) && m.pc == i ==> !Step(prog, q, m).Failed?
  {
    hide Step, Allowed;
    if Allowed(prog, i) {
      forall q, m | GoodPacket(q) && GoodMachine(m) && m.pc == i
        ensures !Step(prog, q, m).Failed?
      {
        StepSafe(prog, q, m);
      }
    } else {
      var q, m := Packet([], 0, (_, _) => 0), START.(pc := i);
      StartGood();
      Faults(prog, q, m);
    }
  }

  /** A jump is allowed exactly if it leads into the program, whatever it tests. */
  lemma RefusedJumps(prog: seq<Insn>, i: nat)
    requires GoodProgram(prog) && i < |prog| && prog[i].code % 8 == 5 && InCodeMap(prog[i].code)
    ensures var p := prog[i];
      Allowed(prog, i) <==>
        if Operation(p) == 0 then i + 1 + p.k < |prog| else i + 1 + p.jt < |prog| && i + 1 + p.jf < |prog|
  {
    CodeMapIsCases(prog[i].code);
    hide InCodeMap;
  }

  lemma Faults(prog: seq<Insn>, q: Packet, m: Machine)
    requires GoodProgram(prog) && GoodPacket(q) && GoodMachine(m) && m.pc < |prog|
    requires !Allowed(prog, m.pc) && prog[m.pc].code % 8 != 5
    ensures Step(prog, q, m).Failed?
  {
    var p := prog[m.pc];
    UnknownCodes(prog, q, m);
    CodeMapIsCases(p.code);
    hide InCodeMap, IsCase, Load, Add;
    if IsCase(p.code) {
      assert p.code in {0x02, 0x03, 0x60, 0x61, 0x34};
    }
  }

  // ---------------------------------------------------------------- a whole program

  /** The usual test of a two-byte field: `ldh [at]; jeq #v, 0, 1; ret #yes; ret #no`. */
  function FieldTest(at: nat, v: nat, yes: nat, no: nat): seq<Insn> {
    [Insn(0x28, 0, 0, at), Insn(0x15, 0, 1, v), Insn(0x06, 0, 0, yes), Insn(0x06, 0, 0, no)]
  }

  /** It is accepted, and tells exactly the packets whose field has that value. */
  lemma FieldTestMeans(at: nat, v: nat, yes: nat, no: nat, q: Packet)
    requires at < U32 && v < U32 && yes < U32 && no < U32 && GoodPacket(q)
    ensures GoodProgram(FieldTest(at, v, yes, no)) && Accepted(FieldTest(at, v, yes, no)) && GoodMachine(START)
    ensures Run(FieldTest(at, v, yes, no), q, START, 4) ==
      Returned(if |q.bytes| < at + 2 then 0 else if 256 * q.bytes[at] + q.bytes[at + 1] == v then yes else no)
  {
    var prog := FieldTest(at, v, yes, no);
    StartGood();
    FieldTestGood(at, v, yes, no);
    hide Step, Accepted, Allowed, START, FieldTest, GoodMachine, GoodPacket, GoodProgram;
    KnownCodes();
    FieldTestIs(at, v, yes, no);
    Loads(prog, q, START, prog[0]);
    if at + 2 <= |q.bytes| {
      TwoBytes(q, at);
      var m1 := START.(a := BigEndian(q.bytes, at, 2), pc := 1);
      StepGood(prog, q, START);
      Jumps(prog, q, m1, prog[1]);
      StepGood(prog, q, m1);
      var m2 := m1.(pc := if m1.a == v then 2 else 3);
      assert Step(prog, q, m1) == Running(m2);
      Others(prog, q, m2, prog[m2.pc]);
      ThreeSteps(prog, q, START, m1, m2);
    }
  }

  lemma ThreeSteps(prog: seq<Insn>, q: Packet, m: Machine, m1: Machine, m2: Machine)
    requires GoodProgram(prog) && GoodPacket(q) && GoodMachine(m) && GoodMachine(m1) && GoodMachine(m2)
    requires Step(prog, q, m) == Running(m1) && Step(prog, q, m1) == Running(m2) && Step(prog, q, m2).Returned?
    ensures Run(prog, q, m, 4) == Step(prog, q, m2)
  {
    hide Step;
    assert Run(prog, q, m2, 2) == Step(prog, q, m2);
    assert Run(prog, q, m1, 3) == Run(prog, q, m2, 2);
  }

  lemma FieldTestGood(at: nat, v: nat, yes: nat, no: nat)
    requires at < U32 && v < U32 && yes < U32 && no < U32
    ensures GoodProgram(FieldTest(at, v, yes, no)) && Accepted(FieldTest(at, v, yes, no))
  {
    var prog := FieldTest(at, v, yes, no);
    assert IsCase(0x28) && IsCase(0x15) && IsCase(0x06);
    assert Allowed(prog, 0) && Allowed(prog, 1) && Allowed(prog, 2) && Allowed(prog, 3);
  }

  lemma FieldTestIs(at: nat, v: nat, yes: nat, no: nat)
    ensures var prog := FieldTest(at, v, yes, no);
      && |prog| == 4 && prog[0] == Insn(0x28, 0, 0, at) && prog[1] == Insn(0x15, 0, 1, v)
      && prog[2] == Insn(0x06, 0, 0, yes) && prog[3] == Insn(0x06, 0, 0, no)
    ensures START.pc == 0
  {
  }

  lemma KnownCodes()
    ensures InCodeMap(0x28) && InCodeMap(0x15) && InCodeMap(0x06)
  {
    hide InCodeMap;
    CodeMapIsCases(0x28);
    CodeMapIsCases(0x15);
    CodeMapIsCases(0x06);
  }
}
