/** One step of the simulator and what every run keeps. */
module Simulator {
  import opened Words
  import opened Memory
  import opened Instructions
  import Alu
  import Divider

  /** The value of the simulated processor: registers, program counter and memory. */
  datatype Machine = Machine(x: seq<Word>, pc: Word, memory: seq<SegmentValue>) {
    ghost predicate Valid() {
      |x| == 32 && x[0] == 0 && AllWellSized(memory)
    }
  }

  /** What an instruction changes besides the program counter: nothing, one register, or the bytes of a store. */
  datatype Effect = NoEffect | SetRegister(rd: Word, value: Word) | Store(address: Word, bytes: seq<Octet>)

  /** An instruction's effect, the next program counter and the code the step returns. */
  datatype Outcome = Outcome(effect: Effect, pc: Word, code: int)

  const OC_LOAD := 0
  const OC_OP_IMM := 4
  const OC_AUIPC := 5
  const OC_STORE := 8
  const OC_OP := 12
  const OC_LUI := 13
  const OC_BRANCH := 24
  const OC_JALR := 25
  const OC_JAL := 27
  const OC_SYSTEM := 28

  /** Shifting by 32 or more has no defined result in C: whatever the compiler makes of it. */
  type UndefinedShift = (Word, Word) -> Word

  function Fetch(m: Machine): Word
    requires m.Valid()
  {
    Assemble(ReadBytes(m.memory, m.pc, 4))
  }

  /** The bytes at consecutive addresses modulo 2^32. */
  function ReadBytes(memory: seq<SegmentValue>, address: Word, count: nat): (b: seq<Octet>)
    requires AllWellSized(memory)
    ensures |b| == count
  {
    seq<Octet>(count, k requires 0 <= k < count => ReadByte(memory, Wrap(address + k)))
  }

  /** Register 0 is never written. */
  function Assigned(x: seq<Word>, rd: Word, value: Word): (x': seq<Word>)
    requires rd < |x|
    ensures |x'| == |x| && (0 < |x| ==> x'[0] == x[0])
  {
    if rd == 0 then x else x[rd := value]
  }

  function Apply(m: Machine, o: Outcome): (r: Machine)
    requires m.Valid()
    requires o.effect.SetRegister? ==> o.effect.rd < 32
  {
    match o.effect
    case NoEffect => m.(pc := o.pc)
    case SetRegister(rd, value) => m.(x := Assigned(m.x, rd, value), pc := o.pc)
    case Store(address, bytes) => m.(memory := WriteBytes(m.memory, address, bytes), pc := o.pc)
  }

  // ----- the instructions by opcode

  function Op(m: Machine, inst: Word, undefined: UndefinedShift): Outcome
    requires m.Valid()
  {
    var a, b, f3, f7 := m.x[Rs1(inst)], m.x[Rs2(inst)], Funct3(inst), Funct7(inst);
    if LegalOp(f3, f7, b) then Outcome(SetRegister(Rd(inst), OpResult(f3, f7, a, b)), Wrap(m.pc + 4), 0)
    else if f7 == FUNCT7_ALT && f3 == 5 then Outcome(SetRegister(Rd(inst), undefined(a, b)), Wrap(m.pc + 4), 0)
    else Outcome(NoEffect, Wrap(m.pc + 4), if f7 == FUNCT7_ALT then 2 else 0)
  }

  /** An immediate instruction is the register instruction on the sign-extended immediate, except that SLTIU
      does not extend it and that a shift takes its amount and kind from the immediate's fields. */
  function OpImm(m: Machine, inst: Word): Outcome
    requires m.Valid()
  {
    var a, f3, imm := m.x[Rs1(inst)], Funct3(inst), ImmI(inst);
    var shiftKind := Funct7(inst);
    if (f3 == 1 || f3 == 5) && shiftKind != FUNCT7_BASE && !(f3 == 5 && shiftKind == FUNCT7_ALT) then
      Outcome(NoEffect, Wrap(m.pc + 4), if f3 == 1 then 3 else 4)
    else
      var value :=
        if f3 == 1 || f3 == 5 then OpResult(f3, shiftKind, a, Rs2(inst))
        else if f3 == 3 then OpResult(3, FUNCT7_BASE, a, imm)
        else OpResult(f3, FUNCT7_BASE, a, SignExtend(imm, 12));
      Outcome(SetRegister(Rd(inst), value), Wrap(m.pc + 4), 0)
  }

  /** The number of bytes a load or store moves. */
  function Width(funct3: nat): (n: nat)
    requires funct3 in {0, 1, 2, 4, 5}
    ensures n == 1 || n == 2 || n == 4
  {
    if funct3 == 2 then 4 else if funct3 == 1 || funct3 == 5 then 2 else 1
  }

  /** LB and LH extend the sign. */
  function Extend(funct3: nat, v: Word): Word {
    if funct3 == 0 then SignExtend(v, 8) else if funct3 == 1 then SignExtend(v, 16) else v
  }

  function LoadValue(memory: seq<SegmentValue>, address: Word, funct3: nat): Word
    requires AllWellSized(memory) && funct3 in {0, 1, 2, 4, 5}
  {
    Extend(funct3, Assemble(ReadBytes(memory, address, Width(funct3))))
  }

  function Load(m: Machine, inst: Word): Outcome
    requires m.Valid()
  {
    var address := Wrap(m.x[Rs1(inst)] + SignExtend(ImmI(inst), 12));
    if Funct3(inst) in {0, 1, 2, 4, 5}
    then Outcome(SetRegister(Rd(inst), LoadValue(m.memory, address, Funct3(inst))), Wrap(m.pc + 4), 0)
    else Outcome(NoEffect, Wrap(m.pc + 4), 0)
  }

  function StoreTo(m: Machine, inst: Word): Outcome
    requires m.Valid()
  {
    var address := Wrap(m.x[Rs1(inst)] + SignExtend(ImmS(inst), 12));
    if Funct3(inst) <= 2
    then Outcome(Store(address, BytesOf(m.x[Rs2(inst)], Width(Funct3(inst)))), Wrap(m.pc + 4), 0)
    else Outcome(NoEffect, Wrap(m.pc + 4), 0)
  }

  predicate Taken(funct3: nat, a: Word, b: Word) {
    match funct3
    case 0 => a == b
    case 1 => a != b
    case 4 => Signed(a) < Signed(b)
    case 5 => Signed(a) >= Signed(b)
    case 6 => a < b
    case 7 => a >= b
    case _ => false
  }

  function Branch(m: Machine, inst: Word): Outcome
    requires m.Valid()
  {
    var taken := Taken(Funct3(inst), m.x[Rs1(inst)], m.x[Rs2(inst)]);
    Outcome(NoEffect, Wrap(m.pc + if taken then SignExtend(ImmB(inst), 13) else 4), 0)
  }

  function Jal(m: Machine, inst: Word): Outcome {
    Outcome(SetRegister(Rd(inst), Wrap(m.pc + 4)), Wrap(m.pc + SignExtend(ImmJ(inst), 21)), 0)
  }

  /** The target uses the register's value from before the link is written, and keeps bit 0. */
  function Jalr(m: Machine, inst: Word): Outcome
    requires m.Valid()
  {
    Outcome(SetRegister(Rd(inst), Wrap(m.pc + 4)), Wrap(m.x[Rs1(inst)] + SignExtend(ImmI(inst), 12)), 0)
  }

  function Lui(m: Machine, inst: Word): Outcome {
    Outcome(SetRegister(Rd(inst), ImmU(inst)), Wrap(m.pc + 4), 0)
  }

  function Auipc(m: Machine, inst: Word): Outcome {
    Outcome(SetRegister(Rd(inst), Wrap(m.pc + ImmU(inst))), Wrap(m.pc + 4), 0)
  }

  /** ECALL, EBREAK, and the unimplemented control register instructions, without callbacks. */
  function System(m: Machine, inst: Word): Outcome {
    Outcome(NoEffect, Wrap(m.pc + 4), if ImmI(inst) == 0 then -2 else if ImmI(inst) == 1 then -1 else 5)
  }

  function Execute(m: Machine, inst: Word, undefined: UndefinedShift): (o: Outcome)
    requires m.Valid()
    ensures o.effect.SetRegister? ==> o.effect.rd < 32
    ensures o.effect.Store? ==> |o.effect.bytes| <= 4
  {
    if Field(inst, 0, 1) != 3 then Outcome(NoEffect, m.pc, 1)
    else if Opcode(inst) == OC_OP then Op(m, inst, undefined)
    else if Opcode(inst) == OC_OP_IMM then OpImm(m, inst)
    else if Opcode(inst) == OC_LOAD then Load(m, inst)
    else if Opcode(inst) == OC_STORE then StoreTo(m, inst)
    else if Opcode(inst) == OC_BRANCH then Branch(m, inst)
    else if Opcode(inst) == OC_JAL then Jal(m, inst)
    else if Opcode(inst) == OC_JALR then Jalr(m, inst)
    else if Opcode(inst) == OC_LUI then Lui(m, inst)
    else if Opcode(inst) == OC_AUIPC then Auipc(m, inst)
    else if Opcode(inst) == OC_SYSTEM then System(m, inst)
    else Outcome(NoEffect, Wrap(m.pc + 4), 6)
  }

  function Step(m: Machine, undefined: UndefinedShift): Machine
    requires m.Valid()
  {
    Apply(m, Execute(m, Fetch(m), undefined))
  }

  // ----- every run

  /** After `rv_simulator_init`. */
  function Initial(memory: seq<SegmentValue>): Machine {
    Machine(seq(32, _ => 0), 0, memory)
  }

  lemma ApplyKeepsValid(m: Machine, o: Outcome)
    requires m.Valid() && (o.effect.SetRegister? ==> o.effect.rd < 32)
    ensures Apply(m, o).Valid()
  {
    hide WriteBytes;
  }

  lemma StepValid(m: Machine, undefined: UndefinedShift)
    requires m.Valid()
    ensures Step(m, undefined).Valid()
  {
    hide Execute, Apply;
    ApplyKeepsValid(m, Execute(m, Fetch(m), undefined));
  }

  /** The machine after a number of steps. */
  function Run(m: Machine, undefined: UndefinedShift, steps: nat): (r: Machine)
    requires m.Valid()
    ensures r.Valid()
  {
    if steps == 0 then m
    else
      var before := Run(m, undefined, steps - 1);
      StepValid(before, undefined);
      Step(before, undefined)
  }

  ghost predicate OnlyRegisterChanged(m: Machine, m': Machine, r: nat)
    requires m.Valid() && m'.Valid()
  {
    0 < r < 32 && m'.memory == m.memory && forall k | 0 <= k < 32 && k != r :: m'.x[k] == m.x[k]
  }

  ghost predicate OnlyBytesChanged(m: Machine, m': Machine, address: Word)
    requires m.Valid() && m'.Valid()
  {
    && m'.x == m.x
    && (forall b: Word | ReadByte(m'.memory, b) != ReadByte(m.memory, b) ::
          Wrap(b - address) < 4 && Writable(m.memory, b))
  }

  ghost predicate SmallStep(m: Machine, m': Machine)
    requires m.Valid() && m'.Valid()
  {
    || (exists r: nat :: OnlyRegisterChanged(m, m', r))
    || (exists address: Word :: OnlyBytesChanged(m, m', address))
  }

  lemma ApplyIsSmall(m: Machine, o: Outcome)
    requires m.Valid()
    requires o.effect.SetRegister? ==> o.effect.rd < 32
    requires o.effect.Store? ==> |o.effect.bytes| <= 4
    ensures Apply(m, o).Valid() && SmallStep(m, Apply(m, o))
    ensures SameLayout(m.memory, Apply(m, o).memory) && ReadOnlyKept(m.memory, Apply(m, o).memory)
  {
    hide WriteBytes, ReadByte, Writable, Find, SameLayout, ReadOnlyKept;
    ApplyKeepsValid(m, o);
    var m' := Apply(m, o);
    match o.effect
    case NoEffect =>
      LayoutRefl(m.memory);
      assert OnlyRegisterChanged(m, m', 1);
    case SetRegister(rd, value) =>
      LayoutRefl(m.memory);
      assert OnlyRegisterChanged(m, m', if rd == 0 then 1 else rd);
    case Store(address, bytes) =>
      WriteBytesRead(m.memory, address, bytes, address);
      forall b: Word | ReadByte(m'.memory, b) != ReadByte(m.memory, b)
        ensures Wrap(b - address) < 4 && Writable(m.memory, b)
      {
        WriteBytesRead(m.memory, address, bytes, b);
      }
      assert OnlyBytesChanged(m, m', address);
  }

  lemma StepIsSmall(m: Machine, undefined: UndefinedShift)
    requires m.Valid()
    ensures Step(m, undefined).Valid() && SmallStep(m, Step(m, undefined))
    ensures SameLayout(m.memory, Step(m, undefined).memory) && ReadOnlyKept(m.memory, Step(m, undefined).memory)
  {
    hide Execute, Apply, SmallStep, SameLayout, ReadOnlyKept;
    ApplyIsSmall(m, Execute(m, Fetch(m), undefined));
  }

  /** From the initial state, over any number of steps of any program: x0 is 0, the segments stay where they are,
      read-only bytes keep their values, and each step changes one register or the bytes of one store. */
  lemma {:induction false} EveryRun(memory: seq<SegmentValue>, undefined: UndefinedShift, steps: nat)
    requires AllWellSized(memory)
    ensures var m := Run(Initial(memory), undefined, steps);
      && |m.x| == 32 && m.x[0] == 0
      && SameLayout(memory, m.memory) && ReadOnlyKept(memory, m.memory)
      && SmallStep(m, Run(Initial(memory), undefined, steps + 1))
  {
    hide Step, SmallStep, SameLayout, ReadOnlyKept;
    var m := Run(Initial(memory), undefined, steps);
    StepIsSmall(m, undefined);
    if steps == 0 {
      LayoutRefl(memory);
    } else {
      EveryRun(memory, undefined, steps - 1);
      var before := Run(Initial(memory), undefined, steps - 1);
      StepIsSmall(before, undefined);
      LayoutTrans(memory, before.memory, m.memory);
    }
  }

  // ----- a load after a store

  /** Loading what was just stored gives the stored value, cut to the width and extended as the load says,
      exactly when each byte is writable or already was as stored. */
  lemma StoredThenLoaded(memory: seq<SegmentValue>, address: Word, v: Word, funct3: nat)
    requires AllWellSized(memory) && funct3 in {0, 1, 2, 4, 5}
    ensures var n := Width(funct3);
      (LoadValue(WriteBytes(memory, address, BytesOf(v, n)), address, funct3) == Extend(funct3, Truncate(v, n))
       <==> forall k | 0 <= k < n ::
              Writable(memory, Wrap(address + k)) || ReadByte(memory, Wrap(address + k)) == BytesOf(v, n)[k])
  {
    hide WriteBytes, ReadByte, Writable, Find, BytesOf, Assemble, Extend, Truncate;
    var n := Width(funct3);
    var b := BytesOf(v, n);
    var memory' := WriteBytes(memory, address, b);
    var read := ReadBytes(memory', address, n);
    AssembleBytesOf(v, n);
    ExtendInjective(funct3, read, b);
    forall k | 0 <= k < n
      ensures read[k] == b[k]
         <==> Writable(memory, Wrap(address + k)) || ReadByte(memory, Wrap(address + k)) == b[k]
    {
      WriteBytesRead(memory, address, b, Wrap(address + k));
      OffsetOf(address, Wrap(address + k), k);
    }
  }

  lemma ExtendInjective(funct3: nat, b: seq<Octet>, c: seq<Octet>)
    requires funct3 in {0, 1, 2, 4, 5} && |b| == |c| == Width(funct3)
    ensures Extend(funct3, Assemble(b)) == Extend(funct3, Assemble(c)) <==> b == c
  {
    hide Assemble, SignExtend, ByteBits, Bits;
    AssembleInjective(b, c);
    AssembleBits(b);
    AssembleBits(c);
    if funct3 <= 1 {
      SignExtendBits(Assemble(b), ByteBits(b));
      SignExtendBits(Assemble(c), ByteBits(c));
      if Extend(funct3, Assemble(b)) == Extend(funct3, Assemble(c)) {
        var n := 32 - 8 * |b|;
        assert ByteBits(b) == Bits(Extend(funct3, Assemble(b)))[n..] == ByteBits(c);
        ByteBitsInjective(b, c);
      }
    }
  }

  ghost predicate IsStore(m: Machine)
    requires m.Valid()
  {
    Field(Fetch(m), 0, 1) == 3 && Opcode(Fetch(m)) == OC_STORE && Funct3(Fetch(m)) <= 2
  }

  ghost predicate IsLoad(m: Machine)
    requires m.Valid()
  {
    Field(Fetch(m), 0, 1) == 3 && Opcode(Fetch(m)) == OC_LOAD && Funct3(Fetch(m)) in {0, 1, 2, 4, 5}
  }

  /** A store instruction, followed by a load instruction of the same width, base register and offset: the
      register loaded gets the register stored, cut and extended, exactly when each byte could be written or
      already was as stored. */
  lemma StoreThenLoad(m: Machine, undefined: UndefinedShift)
    requires m.Valid() && IsStore(m)
    requires var m' := Step(m, undefined);
      m'.Valid() && IsLoad(m')
      && Width(Funct3(Fetch(m'))) == Width(Funct3(Fetch(m))) && Rs1(Fetch(m')) == Rs1(Fetch(m))
      && SignExtend(ImmI(Fetch(m')), 12) == SignExtend(ImmS(Fetch(m)), 12) && Rd(Fetch(m')) != 0
    ensures var st, m' := Fetch(m), Step(m, undefined);
      var ld, m'' := Fetch(m'), Step(m', undefined);
      var address, n, v := Wrap(m.x[Rs1(st)] + SignExtend(ImmS(st), 12)), Width(Funct3(st)), m.x[Rs2(st)];
      m''.Valid()
      && (m''.x[Rd(ld)] == Extend(Funct3(ld), Truncate(v, n))
          <==> forall k | 0 <= k < n ::
                 Writable(m.memory, Wrap(address + k)) || ReadByte(m.memory, Wrap(address + k)) == BytesOf(v, n)[k])
  {
    hide WriteBytes, ReadByte, Writable, Find, BytesOf, LoadValue, Extend, Truncate, Fetch, Field, SignExtend, ImmI,
      ImmS, Wrap, Width, Register;
    var st, m' := Fetch(m), Step(m, undefined);
    var ld := Fetch(m');
    StepValid(m', undefined);
    StoredThenLoaded(m.memory, Wrap(m.x[Rs1(st)] + SignExtend(ImmS(st), 12)), m.x[Rs2(st)], Funct3(ld));
  }

  // ----- the hardware computes the registers

  /** A register-register instruction other than a division sets its destination to the ALU's output. */
  lemma OpWritesAluOut(m: Machine, undefined: UndefinedShift, ready: bool)
    requires m.Valid() && Field(Fetch(m), 0, 1) == 3 && Opcode(Fetch(m)) == OC_OP && Rd(Fetch(m)) != 0
    requires var inst := Fetch(m);
      LegalOp(Funct3(inst), Funct7(inst), m.x[Rs2(inst)])
      && !Divider.Inputs(m.x[Rs1(inst)], m.x[Rs2(inst)], false, ready, Funct3(inst), Funct7(inst)).IsDivision()
    ensures var inst := Fetch(m);
      var i := Divider.Inputs(m.x[Rs1(inst)], m.x[Rs2(inst)], false, ready, Funct3(inst), Funct7(inst));
      Step(m, undefined) == m.(x := m.x[Rd(inst) := Alu.Out(i)], pc := Wrap(m.pc + 4))
  {
    hide Fetch, Field, OpResult, Alu.Out, Wrap, Register;
    var inst := Fetch(m);
    Alu.AluRefinesSimulator(
      Divider.Inputs(m.x[Rs1(inst)], m.x[Rs2(inst)], false, ready, Funct3(inst), Funct7(inst)));
  }

  /** An immediate instruction sets its destination to the ALU's output for the extended immediate, with one
      exception: SLTIU with a negative immediate, when the register lies between the immediate as it stands and
      the extended one. */
  lemma OpImmWritesAluOut(m: Machine, inst: Word, ready: bool)
    requires m.Valid() && OpImm(m, inst).code == 0
    ensures var a, imm, f3 := m.x[Rs1(inst)], ImmI(inst), Funct3(inst);
      var i := Divider.Inputs(a, SignExtend(imm, 12), true, ready, f3, Funct7(inst));
      OpImm(m, inst) == Outcome(SetRegister(Rd(inst), Alu.Out(i)), Wrap(m.pc + 4), 0)
      <==> f3 != 3 || imm < 0x800 || a < imm || a >= SignExtend(imm, 12)
  {
    hide Register, Wrap, OpResult, Alu.ShifterOut, ShiftLeft32, ShiftRight32, Sra, And, Or, Xor32, SignExtend, ImmI,
      Funct7;
    var a, imm, f3 := m.x[Rs1(inst)], ImmI(inst), Funct3(inst);
    var simm := SignExtend(imm, 12);
    ImmediateResults(a, simm, imm);
    ShiftsBy(a, Rs2(inst));
    if f3 == 1 || f3 == 5 {
      ImmediateShiftAmount(inst);
      Alu.LeftShift(a, simm);
      Alu.RightShift(a, simm);
      Alu.ArithmeticRightShift(a, Rs2(inst));
      Alu.ShifterUsesLowBits(a, simm, Rs2(inst));
    } else if f3 == 3 {
      ImmediateResults(a, imm, simm);
      SltiuAgrees(m, inst);
    }
  }

  // ----- where the simulator departs from the instruction set

  lemma ImmediateBound(inst: Word)
    ensures ImmI(inst) < 0x1000
    ensures SignExtend(ImmI(inst), 12) == if ImmI(inst) < 0x800 then ImmI(inst) else ImmI(inst) + 0xFFFF_F000
  {
    hide Field, SignExtend;
    FieldBound(inst, 20, 31);
    ImmediatePowers();
    SignExtendValue(ImmI(inst), 12);
  }

  /** SLTIU gives what the instruction set says, a comparison with the extended immediate, exactly when the immediate
      is not negative or the register does not lie between the two. */
  lemma SltiuAgrees(m: Machine, inst: Word)
    requires m.Valid() && Funct3(inst) == 3
    ensures var a, imm := m.x[Rs1(inst)], ImmI(inst);
      OpImm(m, inst).effect == SetRegister(Rd(inst), OpResult(3, FUNCT7_BASE, a, SignExtend(imm, 12)))
      <==> imm < 0x800 || a < imm || a >= SignExtend(imm, 12)
  {
    hide Register, SignExtend, ImmI, Funct3, OpResult, Funct7;
    var a, imm := m.x[Rs1(inst)], ImmI(inst);
    ImmediateBound(inst);
    ImmediateResults(a, SignExtend(imm, 12), imm);
    ImmediateResults(a, imm, SignExtend(imm, 12));
  }

  /** It does so for every register value exactly when the immediate is not negative. */
  lemma SltiuAgreesAlways(imm: Word)
    requires imm < 0x1000
    ensures (forall a: Word ::
               OpResult(3, FUNCT7_BASE, a, imm) == OpResult(3, FUNCT7_BASE, a, SignExtend(imm, 12)))
        <==> imm < 0x800
  {
    hide SignExtend, OpResult;
    ImmediatePowers();
    SignExtendValue(imm, 12);
    forall a: Word
      ensures OpResult(3, FUNCT7_BASE, a, imm) == (if a < imm then 1 else 0)
      ensures OpResult(3, FUNCT7_BASE, a, SignExtend(imm, 12)) == if a < SignExtend(imm, 12) then 1 else 0
    {
      ImmediateResults(a, imm, imm);
      ImmediateResults(a, imm, SignExtend(imm, 12));
    }
    if imm >= 0x800 {
      assert OpResult(3, FUNCT7_BASE, imm, imm) != OpResult(3, FUNCT7_BASE, imm, SignExtend(imm, 12));
    }
  }

  /** The immediate -2048 and the register value 2048: the simulator gives 0, the instruction set 1. */
  lemma SltiuDiffers()
    ensures OpResult(3, FUNCT7_BASE, 0x800, 0x800) == 0
    ensures OpResult(3, FUNCT7_BASE, 0x800, SignExtend(0x800, 12)) == 1
  {
    hide SignExtend;
    ImmediatePowers();
    SignExtendValue(0x800, 12);
  }

  /** JALR goes where the instruction set says, to the sum with bit 0 cleared, exactly when the sum is even. */
  lemma JalrAgrees(m: Machine, inst: Word)
    requires m.Valid()
    ensures var sum := m.x[Rs1(inst)] + SignExtend(ImmI(inst), 12);
      Jalr(m, inst).pc == Wrap(sum) - Wrap(sum) % 2 <==> sum % 2 == 0
  {
    hide Register, SignExtend, ImmI;
  }

  /** The instruction `jalr x0, 0(x1)` with an odd address in x1 jumps to the odd address. */
  lemma JalrKeepsBitZero(m: Machine, inst: Word)
    requires m.Valid() && m.x[1] % 2 == 1 && inst == 0x8067
    ensures IsJalrX1(inst)
    ensures Jalr(m, inst).pc == m.x[1]
  {
    hide Register, SignExtend, ImmI, Opcode;
    JalrX1Decoded(inst);
  }

  predicate IsJalrX1(inst: Word) {
    Opcode(inst) == OC_JALR && Rd(inst) == 0 && Rs1(inst) == 1 && SignExtend(ImmI(inst), 12) == 0
  }

  lemma JalrX1Decoded(inst: Word)
    requires inst == 0x8067
    ensures IsJalrX1(inst)
  {
    hide Field, SignExtend;
    FieldPowers();
    FieldValue(inst, 2, 6);
    FieldValue(inst, 7, 11);
    FieldValue(inst, 15, 19);
    FieldValue(inst, 20, 31);
    ImmediateBound(inst);
  }

  // ----- the simulator as it is held in memory

  class Processor {
    const x: array<Word>
    var pc: Word
    const memory: SegmentedMemory

    ghost predicate Valid()
      reads this, x, memory, memory.DataArrays()
    {
      x.Length == 32 && x[0] == 0 && memory.Valid() && x !in memory.DataArrays()
    }

    ghost function Current(): (m: Machine)
      requires Valid()
      reads this, x, memory, memory.DataArrays()
      ensures m.Valid()
    {
      Machine(x[..], pc, memory.Contents())
    }

    constructor (memory: SegmentedMemory)
      requires memory.Valid()
      ensures Valid() && this.memory == memory && fresh(x)
      ensures Current() == Initial(old(memory.Contents()))
      ensures pc == 0 && forall k | 0 <= k < 32 :: x[k] == 0
    {
      this.x := new Word[32](_ => 0);
      this.pc := 0;
      this.memory := memory;
    }

    method WriteRegister(rd: Word, value: Word)
      requires Valid() && rd < 32
      modifies x
      ensures Valid()
      ensures Current() == old(Current()).(x := Assigned(old(x[..]), rd, value))
    {
      if rd != 0 {
        x[rd] := value;
      }
    }

    method JumpTo(target: Word)
      requires Valid()
      modifies this`pc
      ensures Valid() && Current() == old(Current()).(pc := target)
    {
      pc := target;
    }

    method BaseOp(rd: Word, funct3: Word, a: Word, b: Word)
      requires Valid() && rd < 32 && funct3 < 8
      modifies x
      ensures Valid()
      ensures Current() == old(Current()).(x := Assigned(old(x[..]), rd, OpResult(funct3, FUNCT7_BASE, a, b)))
    {
      hide ShiftLeft32, ShiftRight32, And, Or, Xor32, Wrap, Assigned;
      match funct3
      case 0 => WriteRegister(rd, Wrap(a + b));
      case 4 => WriteRegister(rd, Xor32(a, b));
      case 6 => WriteRegister(rd, Or(a, b));
      case 7 => WriteRegister(rd, And(a, b));
      case 1 => WriteRegister(rd, ShiftLeft32(a, b % 32));
      case 5 => WriteRegister(rd, ShiftRight32(a, b % 32));
      case 2 => WriteRegister(rd, if Signed(a) < Signed(b) then 1 else 0);
      case _ => WriteRegister(rd, if a < b then 1 else 0);
    }

    method MulDivOp(rd: Word, funct3: Word, a: Word, b: Word)
      requires Valid() && rd < 32 && funct3 < 8
      modifies x
      ensures Valid()
      ensures Current() == old(Current()).(x := Assigned(old(x[..]), rd, OpResult(funct3, FUNCT7_M, a, b)))
    {
      hide Wrap, TruncDiv, TruncMod, Assigned;
      if funct3 == 0 {
        WriteRegister(rd, Wrap(Signed(a) * Signed(b)));
      } else if funct3 == 1 {
        WriteRegister(rd, Wrap(Signed(a) * Signed(b) / TWO32));
      } else if funct3 == 2 {
        var result := Signed(a) % TWO64 * b % TWO64;
        WriteRegister(rd, Wrap((if result >= TWO64 / 2 then result - TWO64 else result) / TWO32));
      } else if funct3 == 3 {
        WriteRegister(rd, Wrap(a * b / TWO32));
      } else if funct3 == 4 {
        WriteRegister(rd, if b == 0 then ALL_ONES else Wrap(TruncDiv(Signed(a), Signed(b))));
      } else if funct3 == 5 {
        WriteRegister(rd, if b == 0 then ALL_ONES else Wrap(a / b));
      } else if funct3 == 6 {
        WriteRegister(rd, if b == 0 then a else Wrap(TruncMod(Signed(a), Signed(b))));
      } else {
        WriteRegister(rd, if b == 0 then a else Wrap(a % b));
      }
    }

    method StepOp(inst: Word, undefined: UndefinedShift) returns (code: int)
      requires Valid()
      modifies this`pc, x
      ensures Valid()
      ensures var o := Op(old(Current()), inst, undefined); Current() == Apply(old(Current()), o) && code == o.code
    {
      hide OpResult, Sra, Wrap, Register, Assigned, Funct7, WriteBytes, SegmentedMemory.Contents,
        SegmentedMemory.DataArrays, SegmentedMemory.Valid;
      var funct3, funct7 := Funct3(inst), Funct7(inst);
      var a, b := x[Rs1(inst)], x[Rs2(inst)];
      code := 0;
      if funct7 == FUNCT7_BASE {
        BaseOp(Rd(inst), funct3, a, b);
      } else if funct7 == FUNCT7_ALT {
        if funct3 == 0 {
          SubtractionResult(a, b);
          WriteRegister(Rd(inst), Wrap((a as int) - b));
        } else if funct3 == 5 {
          SraResult(a, b);
          WriteRegister(Rd(inst), if b < 32 then Sra(a, b) else undefined(a, b));
        } else {
          code := 2;
        }
      } else if funct7 == FUNCT7_M {
        MulDivOp(Rd(inst), funct3, a, b);
      }
      JumpTo(Wrap(pc + 4));
    }

    method StepOpImm(inst: Word) returns (code: int)
      requires Valid()
      modifies this`pc, x
      ensures Valid()
      ensures var o := OpImm(old(Current()), inst); Current() == Apply(old(Current()), o) && code == o.code
    {
      hide OpResult, Sra, Wrap, Register, Assigned, Field, ImmI, SignExtend, And, Or, Xor32, ShiftLeft32,
        ShiftRight32, WriteBytes, LowMask, SegmentedMemory.Contents, SegmentedMemory.DataArrays,
        SegmentedMemory.Valid;
      var funct3, imm := Funct3(inst), ImmI(inst);
      var a, simm := x[Rs1(inst)], SignExtend(imm, 12);
      NestedFields(inst);
      ShiftsBy(a, Rs2(inst));
      ImmediateResults(a, simm, imm);
      code := 0;
      match funct3 {
        case 0 => WriteRegister(Rd(inst), Wrap(a + simm));
        case 4 => WriteRegister(Rd(inst), Xor32(a, simm));
        case 6 => WriteRegister(Rd(inst), Or(a, simm));
        case 7 => WriteRegister(Rd(inst), And(a, simm));
        case 1 =>
          if Field(imm, 5, 11) == 0 {
            WriteRegister(Rd(inst), ShiftLeft32(a, And(imm, LowMask(5))));
          } else {
            code := 3;
          }
        case 5 =>
          if Field(imm, 5, 11) == 0 {
            WriteRegister(Rd(inst), ShiftRight32(a, And(imm, LowMask(5))));
          } else if Field(imm, 5, 11) == 0x20 {
            WriteRegister(Rd(inst), Sra(a, And(imm, LowMask(5))));
          } else {
            code := 4;
          }
        case 2 => WriteRegister(Rd(inst), if Signed(a) < Signed(simm) then 1 else 0);
        case _ => WriteRegister(Rd(inst), if a < imm then 1 else 0);
      }
      JumpTo(Wrap(pc + 4));
    }

    method ReadByteAt(address: Word, offset: nat) returns (b: Octet)
      requires Valid()
      ensures Valid() && Current() == old(Current())
      ensures b == ReadByte(Current().memory, Wrap(address + offset))
    {
      b := memory.Read(Wrap(address + offset));
    }

    method LoadFrom(address: Word, funct3: Word) returns (v: Word)
      requires Valid() && funct3 in {0, 1, 2, 4, 5}
      ensures Valid() && Current() == old(Current())
      ensures v == LoadValue(Current().memory, address, funct3)
    {
      hide Wrap, SignExtend, Or, ShiftLeft32, ReadByte, ReadBytes, LoadValue, Valid, Current;
      LoadByWidth(Current().memory, address, funct3);
      FetchBytes(Current().memory, address);
      var b0 := ReadByteAt(address, 0);
      if funct3 == 0 {
        return SignExtend(b0, 8);
      } else if funct3 == 4 {
        return b0;
      }
      var b1 := ReadByteAt(address, 1);
      if funct3 == 1 {
        return SignExtend(Or(b0, ShiftLeft32(b1, 8)), 16);
      } else if funct3 == 5 {
        return Or(b0, ShiftLeft32(b1, 8));
      }
      var b2 := ReadByteAt(address, 2);
      var b3 := ReadByteAt(address, 3);
      return Or(Or(Or(b0, ShiftLeft32(b1, 8)), ShiftLeft32(b2, 16)), ShiftLeft32(b3, 24));
    }

    method StepLoad(inst: Word) returns (code: int)
      requires Valid()
      modifies this`pc, x
      ensures Valid()
      ensures var o := Load(old(Current()), inst); Current() == Apply(old(Current()), o) && code == o.code
    {
      hide Wrap, Register, Assigned, ImmI, SignExtend, LoadValue, WriteBytes, SegmentedMemory.Contents,
        SegmentedMemory.DataArrays, SegmentedMemory.Valid;
      var funct3 := Funct3(inst);
      var address := Wrap(x[Rs1(inst)] + SignExtend(ImmI(inst), 12));
      if funct3 in {0, 1, 2, 4, 5} {
        var v := LoadFrom(address, funct3);
        WriteRegister(Rd(inst), v);
      }
      JumpTo(Wrap(pc + 4));
      code := 0;
    }

    method WriteByteAt(address: Word, offset: nat, b: Octet)
      requires Valid()
      modifies memory.DataArrays()
      ensures Valid() && memory.DataArrays() == old(memory.DataArrays())
      ensures Current() == old(Current()).(memory := WriteByte(old(Current()).memory, Wrap(address + offset), b))
    {
      memory.Write(Wrap(address + offset), b);
    }

    method StoreBytes(address: Word, v: Word, funct3: Word)
      requires Valid() && funct3 <= 2
      modifies memory.DataArrays()
      ensures Valid()
      ensures Current() == old(Current()).(memory :=
        WriteBytes(old(Current()).memory, address, BytesOf(v, Width(funct3))))
    {
      hide Wrap, WriteByte, WriteBytes, ByteOf, BytesOf, Valid, Current, SegmentedMemory.Contents,
        SegmentedMemory.DataArrays, SegmentedMemory.Valid;
      StoreByWidth(Current().memory, address, v, Width(funct3));
      WriteByteAt(address, 0, ByteOf(v, 0));
      if funct3 > 0 {
        WriteByteAt(address, 1, ByteOf(v, 1));
      }
      if funct3 == 2 {
        WriteByteAt(address, 2, ByteOf(v, 2));
        WriteByteAt(address, 3, ByteOf(v, 3));
      }
    }

    method StepStore(inst: Word) returns (code: int)
      requires Valid()
      modifies this`pc, memory.DataArrays()
      ensures Valid()
      ensures var o := StoreTo(old(Current()), inst); Current() == Apply(old(Current()), o) && code == o.code
    {
      hide Wrap, Register, ImmS, SignExtend, WriteBytes, BytesOf, Width, SegmentedMemory.Contents,
        SegmentedMemory.DataArrays, SegmentedMemory.Valid;
      var address := Wrap(x[Rs1(inst)] + SignExtend(ImmS(inst), 12));
      if Funct3(inst) <= 2 {
        StoreBytes(address, x[Rs2(inst)], Funct3(inst));
      }
      JumpTo(Wrap(pc + 4));
      code := 0;
    }

    method StepBranch(inst: Word) returns (code: int)
      requires Valid()
      modifies this`pc
      ensures Valid()
      ensures var o := Branch(old(Current()), inst); Current() == Apply(old(Current()), o) && code == o.code
    {
      hide Wrap, Register, ImmB, SignExtend, SegmentedMemory.Contents, SegmentedMemory.DataArrays,
        SegmentedMemory.Valid;
      var a, b := x[Rs1(inst)], x[Rs2(inst)];
      var conditional := false;
      var target := Wrap(pc + SignExtend(ImmB(inst), 13));
      match Funct3(inst) {
        case 0 => conditional := a == b;
        case 1 => conditional := a != b;
        case 4 => conditional := Signed(a) < Signed(b);
        case 5 => conditional := Signed(a) >= Signed(b);
        case 6 => conditional := a < b;
        case 7 => conditional := a >= b;
        case _ =>
      }
      if conditional {
        JumpTo(target);
      } else {
        JumpTo(Wrap(pc + 4));
      }
      code := 0;
    }

    method StepJalr(inst: Word) returns (code: int)
      requires Valid()
      modifies this`pc, x
      ensures Valid()
      ensures var o := Jalr(old(Current()), inst); Current() == Apply(old(Current()), o) && code == o.code
    {
      hide Wrap, Register, ImmI, SignExtend, SegmentedMemory.Contents, SegmentedMemory.DataArrays,
        SegmentedMemory.Valid;
      var target := Wrap(SignExtend(ImmI(inst), 12) + x[Rs1(inst)]);
      WriteRegister(Rd(inst), Wrap(pc + 4));
      JumpTo(target);
      code := 0;
    }

    method StepJal(inst: Word) returns (code: int)
      requires Valid()
      modifies this`pc, x
      ensures Valid()
      ensures var o := Jal(old(Current()), inst); Current() == Apply(old(Current()), o) && code == o.code
    {
      hide Wrap, Register, ImmJ, SignExtend, SegmentedMemory.Contents, SegmentedMemory.DataArrays,
        SegmentedMemory.Valid;
      var target := Wrap(pc + SignExtend(ImmJ(inst), 21));
      WriteRegister(Rd(inst), Wrap(pc + 4));
      JumpTo(target);
      code := 0;
    }

    method StepLui(inst: Word) returns (code: int)
      requires Valid()
      modifies this`pc, x
      ensures Valid()
      ensures var o := Lui(old(Current()), inst); Current() == Apply(old(Current()), o) && code == o.code
    {
      hide Wrap, Register, ImmU, SegmentedMemory.Contents, SegmentedMemory.DataArrays, SegmentedMemory.Valid;
      WriteRegister(Rd(inst), ImmU(inst));
      JumpTo(Wrap(pc + 4));
      code := 0;
    }

    method StepAuipc(inst: Word) returns (code: int)
      requires Valid()
      modifies this`pc, x
      ensures Valid()
      ensures var o := Auipc(old(Current()), inst); Current() == Apply(old(Current()), o) && code == o.code
    {
      hide Wrap, Register, ImmU, SegmentedMemory.Contents, SegmentedMemory.DataArrays, SegmentedMemory.Valid;
      WriteRegister(Rd(inst), Wrap(pc + ImmU(inst)));
      JumpTo(Wrap(pc + 4));
      code := 0;
    }

    method FetchInstruction() returns (inst: Word)
      requires Valid()
      ensures Valid() && Current() == old(Current()) && inst == Fetch(Current())
    {
      hide Wrap, Or, ShiftLeft32, ReadByte, SegmentedMemory.Contents, SegmentedMemory.DataArrays,
        SegmentedMemory.Valid;
      var b0 := ReadByteAt(pc, 0);
      var b1 := ReadByteAt(pc, 1);
      var b2 := ReadByteAt(pc, 2);
      var b3 := ReadByteAt(pc, 3);
      FetchBytes(Current().memory, pc);
      inst := Or(Or(Or(b0, ShiftLeft32(b1, 8)), ShiftLeft32(b2, 16)), ShiftLeft32(b3, 24));
    }

    /** One instruction, without callbacks and tracing. */
    method ExecuteStep(undefined: UndefinedShift) returns (code: int)
      requires Valid()
      modifies this`pc, x, memory.DataArrays()
      ensures Valid()
      ensures Current() == Step(old(Current()), undefined)
      ensures code == Execute(old(Current()), Fetch(old(Current())), undefined).code
    {
      hide Fetch, Op, OpImm, Load, StoreTo, Branch, Jal, Jalr, Lui, Auipc, Wrap, Register, Field, And, ShiftRight32,
        LowMask, SignExtend, ImmI, ImmJ, ImmU, SegmentedMemory.Contents, SegmentedMemory.DataArrays,
        SegmentedMemory.Valid;
      var inst := FetchInstruction();
      NestedFields(inst);
      var opcode := And(inst, LowMask(7));
      if Field(opcode, 0, 1) != 3 {
        return 1;
      }
      opcode := ShiftRight32(opcode, 2);
      if opcode == OC_OP {
        code := StepOp(inst, undefined);
      } else if opcode == OC_OP_IMM {
        code := StepOpImm(inst);
      } else if opcode == OC_LOAD {
        code := StepLoad(inst);
      } else if opcode == OC_STORE {
        code := StepStore(inst);
      } else if opcode == OC_BRANCH {
        code := StepBranch(inst);
      } else if opcode == OC_JAL {
        code := StepJal(inst);
      } else if opcode == OC_JALR {
        code := StepJalr(inst);
      } else if opcode == OC_LUI {
        code := StepLui(inst);
      } else if opcode == OC_AUIPC {
        code := StepAuipc(inst);
      } else if opcode == OC_SYSTEM {
        JumpTo(Wrap(pc + 4));
        code := if ImmI(inst) == 0 then -2 else if ImmI(inst) == 1 then -1 else 5;
      } else {
        JumpTo(Wrap(pc + 4));
        code := 6;
      }
    }
  }

  lemma SubtractionResult(a: Word, b: Word)
    ensures OpResult(0, FUNCT7_ALT, a, b) == Wrap(a - b)
  {
  }

  lemma SraResult(a: Word, b: Word)
    ensures b < 32 ==> OpResult(5, FUNCT7_ALT, a, b) == Sra(a, b)
  {
  }

  lemma ShiftsBy(a: Word, n: Word)
    requires n < 32
    ensures OpResult(1, FUNCT7_BASE, a, n) == ShiftLeft32(a, n)
    ensures OpResult(5, FUNCT7_BASE, a, n) == ShiftRight32(a, n)
    ensures OpResult(5, FUNCT7_ALT, a, n) == Sra(a, n)
  {
    hide ShiftLeft32, ShiftRight32, Sra;
  }

  lemma ImmediateResults(a: Word, simm: Word, imm: Word)
    ensures OpResult(0, FUNCT7_BASE, a, simm) == Wrap(a + simm)
    ensures OpResult(4, FUNCT7_BASE, a, simm) == Xor32(a, simm)
    ensures OpResult(6, FUNCT7_BASE, a, simm) == Or(a, simm)
    ensures OpResult(7, FUNCT7_BASE, a, simm) == And(a, simm)
    ensures OpResult(2, FUNCT7_BASE, a, simm) == if Signed(a) < Signed(simm) then 1 else 0
    ensures OpResult(3, FUNCT7_BASE, a, imm) == if a < imm then 1 else 0
  {
    hide Wrap, Xor32, Or, And;
  }

  lemma FetchBytes(memory: seq<SegmentValue>, address: Word)
    requires AllWellSized(memory)
    ensures Assemble(ReadBytes(memory, address, 4))
         == Or(Or(Or(ReadByte(memory, Wrap(address + 0)), ShiftLeft32(ReadByte(memory, Wrap(address + 1)), 8)),
                  ShiftLeft32(ReadByte(memory, Wrap(address + 2)), 16)), ShiftLeft32(ReadByte(memory, Wrap(address + 3)), 24))
  {
    hide Or, ShiftLeft32, ReadByte, Wrap;
  }

  lemma LoadByWidth(memory: seq<SegmentValue>, address: Word, funct3: nat)
    requires AllWellSized(memory) && funct3 in {0, 1, 2, 4, 5}
    ensures LoadValue(memory, address, funct3)
         == Extend(funct3,
              if funct3 == 2 then Assemble(ReadBytes(memory, address, 4))
              else if funct3 == 0 || funct3 == 4 then ReadByte(memory, Wrap(address + 0))
              else Or(ReadByte(memory, Wrap(address + 0)), ShiftLeft32(ReadByte(memory, Wrap(address + 1)), 8)))
  {
    hide Or, ShiftLeft32, ReadByte, Wrap, Extend;
  }

  lemma WriteBytesNext(memory: seq<SegmentValue>, address: Word, bytes: seq<Octet>, k: nat)
    requires AllWellSized(memory) && k < |bytes|
    ensures WriteBytes(memory, address, bytes[..k + 1])
         == WriteByte(WriteBytes(memory, address, bytes[..k]), Wrap(address + k), bytes[k])
  {
    hide WriteByte, Wrap;
    assert bytes[..k + 1][..k] == bytes[..k];
  }

  lemma StoreByWidth(memory: seq<SegmentValue>, address: Word, v: Word, n: nat)
    requires AllWellSized(memory) && (n == 1 || n == 2 || n == 4)
    ensures var one := WriteByte(memory, Wrap(address + 0), ByteOf(v, 0));
      var two := WriteByte(one, Wrap(address + 1), ByteOf(v, 1));
      WriteBytes(memory, address, BytesOf(v, n))
      == (if n == 1 then one else if n == 2 then two
          else WriteByte(WriteByte(two, Wrap(address + 2), ByteOf(v, 2)), Wrap(address + 3), ByteOf(v, 3)))
  {
    hide WriteByte, Wrap, ByteOf;
    var b := BytesOf(v, n);
    assert b[..n] == b && WriteBytes(memory, address, b[..0]) == memory;
    hide WriteBytes;
    WriteBytesNext(memory, address, b, 0);
    if n > 1 {
      WriteBytesNext(memory, address, b, 1);
    }
    if n > 2 {
      WriteBytesNext(memory, address, b, 2);
      WriteBytesNext(memory, address, b, 3);
    }
  }
}
