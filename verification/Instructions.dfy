/**
 Whole steps of the VM for assembled instructions: what each instruction of the
 instruction set leaves in the registers, the memory and the program counters,
 said without the functions that decode and execute it.
 */
module Instructions {
  import opened Words
  import opened Merkle
  import opened Page
  import opened FlatMemory
  import opened Alu
  import opened LoadStoreBytes
  import opened Cpu
  import opened VmHistory
  import opened VmRun
  import opened Wrappers

  // ----- Assembled instructions -----

  type Reg = r: nat | r < 32
  type Imm = i: nat | i < 0x1_0000
  type Six = n: nat | n < 64

  function IType(op: Six, s: Reg, t: Reg, imm: Imm): Word {
    op * 0x400_0000 + s * 0x20_0000 + t * 0x1_0000 + imm
  }

  function RType(op: Six, s: Reg, t: Reg, d: Reg, sh: Reg, fun: Six): Word {
    IType(op, s, t, d * 0x800 + sh * 64 + fun)
  }

  function JType(op: Six, index: nat): Word
    requires index < 0x400_0000
  {
    op * 0x400_0000 + index
  }

  lemma FieldsOfI(op: Six, s: Reg, t: Reg, imm: Imm)
    ensures var insn := IType(op, s, t, imm);
      Opcode(insn) == op && RsReg(insn) == s && RtReg(insn) == t && Imm16(insn) == imm
  {
  }

  lemma FieldsOfR(op: Six, s: Reg, t: Reg, d: Reg, sh: Reg, fun: Six)
    ensures var insn := RType(op, s, t, d, sh, fun);
      && Opcode(insn) == op && RsReg(insn) == s && RtReg(insn) == t
      && RdReg(insn) == d && Shamt(insn) == sh && Funct(insn) == fun
  {
    FieldsOfI(op, s, t, d * 0x800 + sh * 64 + fun);
    LowFields(op * 0x400 + s * 0x20 + t, d, sh, fun);
  }

  lemma LowFields(top: nat, d: Reg, sh: Reg, fun: Six)
    ensures var x := top * 0x1_0000 + d * 0x800 + sh * 64 + fun;
      x / 0x800 % 32 == d && x / 64 % 32 == sh && x % 64 == fun
  {
    var x := top * 0x1_0000 + d * 0x800 + sh * 64 + fun;
    assert x / 64 == 32 * (32 * top + d) + sh;
    assert x / 0x800 == 32 * top + d;
  }

  lemma FieldsOfJ(op: Six, index: nat)
    requires index < 0x400_0000
    ensures Opcode(JType(op, index)) == op && JType(op, index) % 0x400_0000 == index
  {
  }

  /** The next instruction has these fields, read off its bits. */
  predicate NextIsI(vm: Vm, op: Six, s: Reg, t: Reg, imm: Imm) {
    NextInsn(vm).Some? && var insn := NextInsn(vm).value;
      insn / 0x400_0000 == op && insn / 0x20_0000 % 32 == s && insn / 0x1_0000 % 32 == t && insn % 0x1_0000 == imm
  }

  predicate NextIsR(vm: Vm, op: Six, s: Reg, t: Reg, d: Reg, sh: Reg, fun: Six) {
    NextInsn(vm).Some? && var insn := NextInsn(vm).value;
      && insn / 0x400_0000 == op && insn / 0x20_0000 % 32 == s && insn / 0x1_0000 % 32 == t
      && insn / 0x800 % 32 == d && insn / 64 % 32 == sh && insn % 64 == fun
  }

  lemma DecodedI(vm: Vm, op: Six, s: Reg, t: Reg, imm: Imm)
    requires NextIsI(vm, op, s, t, imm)
    ensures NextInsn(vm).Some?
    ensures var insn := NextInsn(vm).value;
      Opcode(insn) == op && RsReg(insn) == s && RtReg(insn) == t && Imm16(insn) == imm
  {
  }

  lemma DecodedR(vm: Vm, op: Six, s: Reg, t: Reg, d: Reg, sh: Reg, fun: Six)
    requires NextIsR(vm, op, s, t, d, sh, fun)
    ensures NextInsn(vm).Some?
    ensures var insn := NextInsn(vm).value;
      && Opcode(insn) == op && RsReg(insn) == s && RtReg(insn) == t
      && RdReg(insn) == d && Shamt(insn) == sh && Funct(insn) == fun
  {
  }

  /** These are exactly the assembled instructions. */
  lemma AssembledI(vm: Vm, op: Six, s: Reg, t: Reg, imm: Imm)
    ensures NextIsI(vm, op, s, t, imm) <==> NextInsn(vm) == Some(IType(op, s, t, imm))
  {
    hide NextInsn, IType;
    FieldsOfI(op, s, t, imm);
    if NextIsI(vm, op, s, t, imm) {
      ReassembledI(NextInsn(vm).value);
    }
  }

  lemma AssembledR(vm: Vm, op: Six, s: Reg, t: Reg, d: Reg, sh: Reg, fun: Six)
    ensures NextIsR(vm, op, s, t, d, sh, fun) <==> NextInsn(vm) == Some(RType(op, s, t, d, sh, fun))
  {
    hide NextInsn, RType;
    FieldsOfR(op, s, t, d, sh, fun);
    if NextIsR(vm, op, s, t, d, sh, fun) {
      ReassembledR(NextInsn(vm).value);
    }
  }

  lemma ReassembledI(insn: Word)
    ensures insn == IType(insn / 0x400_0000, insn / 0x20_0000 % 32, insn / 0x1_0000 % 32, insn % 0x1_0000)
  {
    var z, u := insn / 0x1_0000, insn / 0x20_0000;
    QuotientsChain(insn);
    assert insn == 0x1_0000 * (32 * (32 * (u / 32) + u % 32) + z % 32) + insn % 0x1_0000;
  }

  lemma ReassembledR(insn: Word)
    ensures insn == RType(insn / 0x400_0000, insn / 0x20_0000 % 32, insn / 0x1_0000 % 32, insn / 0x800 % 32,
                          insn / 64 % 32, insn % 64)
  {
    var x, y, z, u := insn / 64, insn / 0x800, insn / 0x1_0000, insn / 0x20_0000;
    QuotientsChain(insn);
    assert insn == 64 * (32 * (32 * (32 * (32 * (u / 32) + u % 32) + z % 32) + y % 32) + x % 32) + insn % 64;
  }

  lemma QuotientsChain(insn: Word)
    ensures insn / 0x800 == insn / 64 / 32 && insn / 0x1_0000 == insn / 0x800 / 32
    ensures insn / 0x20_0000 == insn / 0x1_0000 / 32 && insn / 0x400_0000 == insn / 0x20_0000 / 32
  {
  }

  // A 16-bit immediate read as two's complement.
  function SignedImm(imm: Imm): int {
    if imm < 0x8000 then imm else imm - 0x1_0000
  }

  // The register file with one register written; register 0 stays.
  function Put(regs: RegFile, d: Reg, v: Word): RegFile {
    if d == 0 then regs else regs[d := v]
  }

  /** The VM after an instruction that leaves these registers: the program counters have moved on by one
      instruction, one more step is counted, and nothing else has changed. */
  function Retired(vm: Vm, regs: RegFile): Vm {
    vm.(cpu := vm.cpu.(
      pc := vm.cpu.nextPC, nextPC := (vm.cpu.nextPC + 4) % WORD_RANGE, regs := regs,
      step := (vm.cpu.step + 1) % UINT64_RANGE))
  }

  // The same, but the next instruction but one is at `dest`.
  function Transferred(vm: Vm, regs: RegFile, dest: Word): Vm {
    vm.(cpu := vm.cpu.(
      pc := vm.cpu.nextPC, nextPC := dest, regs := regs, step := (vm.cpu.step + 1) % UINT64_RANGE))
  }

  predicate AfterJump(vm: Vm) {
    vm.cpu.nextPC != (vm.cpu.pc + 4) % WORD_RANGE
  }

  // ----- Branches -----

  lemma OffsetTarget(pc: Word, imm: Imm)
    ensures Add(Add(pc, 4), Shl(SE(imm, 16), 2)) == (pc + 4 + 4 * SignedImm(imm)) % WORD_RANGE
  {
    hide SE;
    SignedHalf(imm);
    var x: int := SE(imm, 16);
    ShiftLeftNext(x, 0);
    ShiftLeftNext(x, 1);
    assert x == SignedImm(imm) % WORD_RANGE;
    TimesFour(x, SignedImm(imm), pc);
  }

  lemma TimesFour(x: Word, y: int, pc: Word)
    requires x == y || x == y + WORD_RANGE
    ensures ((pc + 4) % WORD_RANGE + 4 * x % WORD_RANGE) % WORD_RANGE == (pc + 4 + 4 * y) % WORD_RANGE
  {
  }

  // When a branch is taken, by the registers it compares: beq, bne, blez, bgtz, bltz and bgez; the last two are told
  // apart by the register field, and no other value of that field branches.  From 2^31 on a word is negative.
  predicate Taken(op: Six, t: Reg, a: Word, b: Word) {
    || (op == 4 && a == b)
    || (op == 5 && a != b)
    || (op == 6 && (a == 0 || a >= 0x8000_0000))
    || (op == 7 && 0 < a < 0x8000_0000)
    || (op == 1 && t == 0 && a >= 0x8000_0000)
    || (op == 1 && t == 1 && a < 0x8000_0000)
  }

  // Where a branch leads: to its target if taken, else behind its delay slot.
  function Lands(vm: Vm, imm: Imm, taken: bool): Word {
    (vm.cpu.pc + if taken then 4 + 4 * SignedImm(imm) else 8) % WORD_RANGE
  }

  lemma StepUnfolds(oracle: Oracle, vm: Vm, insn: Word)
    requires NextInsn(vm) == Some(insn) && !IsSyscall(insn)
    ensures var access := AccessOf(vm.cpu, insn);
      StepVm(oracle, vm) ==
        match Exec(oracle, Ticked(vm.cpu), vm.cache, insn, FetchData(vm.mem, access))
        case Fault => None
        case Next(cpu, cache, store) =>
          Some(Vm(cpu, cache, Store(vm.mem, access, store), StorePages(vm.pages, access, store)))
  {
    hide Exec, FetchData, Store, StorePages, AccessOf, IsSyscall;
  }

  // An instruction that neither touches memory nor calls the system.
  lemma PlainStep(oracle: Oracle, vm: Vm, insn: Word, r: Effect)
    requires NextInsn(vm) == Some(insn) && !IsSyscall(insn) && Opcode(insn) < 0x20
    requires r == Exec(oracle, Ticked(vm.cpu), vm.cache, insn, 0)
    requires r.Next? ==> r.store == None && r.cache == vm.cache
    ensures StepVm(oracle, vm) == if r.Fault? then None else Some(vm.(cpu := r.cpu))
  {
    hide Exec;
    StepUnfolds(oracle, vm, insn);
  }

  lemma SignTests(a: Word)
    ensures (Signed(a) < 0 <==> a >= 0x8000_0000) && (Signed(a) == 0 <==> a == 0)
  {
  }

  /** A branch lands at pc + 4 + 4 * offset, or behind its delay slot, according to a comparison of registers or the
      sign of one, and panics in the delay slot of another transfer. */
  lemma BranchStep(oracle: Oracle, vm: Vm, op: Six, s: Reg, t: Reg, imm: Imm, taken: bool)
    requires NextIsI(vm, op, s, t, imm) && (op == 1 || 4 <= op < 8)
    requires taken <==> Taken(op, t, vm.cpu.regs[s], vm.cpu.regs[t])
    ensures StepVm(oracle, vm) ==
      if AfterJump(vm) then None else Some(Transferred(vm, vm.cpu.regs, Lands(vm, imm, taken)))
  {
    hide StepVm, NextInsn, NextIsI, Opcode, RsReg, RtReg, Imm16, Funct, Branch, SignedImm, Exec;
    DecodedI(vm, op, s, t, imm);
    var insn, cpu := NextInsn(vm).value, Ticked(vm.cpu);
    BranchIs(cpu, insn, imm, taken);
    BranchExec(oracle, cpu, vm.cache, insn);
    PlainStep(oracle, vm, insn, OfCpu(Branch(cpu, insn), vm.cache));
  }

  lemma BranchExec(oracle: Oracle, cpu: Cpu, cache: PreimageCache, insn: Word)
    requires Opcode(insn) == 1 || 4 <= Opcode(insn) < 8
    ensures Exec(oracle, cpu, cache, insn, 0) == OfCpu(Branch(cpu, insn), cache) && !IsSyscall(insn)
  {
    hide Branch, Opcode;
  }

  // The branch as the processor takes it.
  lemma BranchIs(cpu: Cpu, insn: Word, imm: Imm, taken: bool)
    requires Imm16(insn) == imm && (Opcode(insn) == 1 || 4 <= Opcode(insn) < 8)
    requires taken <==> Taken(Opcode(insn), RtReg(insn), cpu.regs[RsReg(insn)], cpu.regs[RtReg(insn)])
    ensures Branch(cpu, insn) ==
      if cpu.nextPC != (cpu.pc + 4) % WORD_RANGE then None
      else
        Some(cpu.(pc := cpu.nextPC, nextPC := (cpu.pc + if taken then 4 + 4 * SignedImm(imm) else 8) % WORD_RANGE))
  {
    hide SE, Shl, Opcode, RsReg, RtReg, Imm16, Signed, SignedImm;
    OffsetTarget(cpu.pc, imm);
    SignTests(cpu.regs[RsReg(insn)]);
    assert ShouldBranch(insn, cpu.regs[RsReg(insn)], cpu.regs[RtReg(insn)]) == taken;
  }

  /** The branch in full: one instruction runs in its delay slot, and then the program is where the branch leads. */
  lemma BranchLands(oracle: Oracle, vm: Vm, v: Vm, w: Vm, op: Six, s: Reg, t: Reg, imm: Imm, taken: bool)
    requires NextIsI(vm, op, s, t, imm) && (op == 1 || 4 <= op < 8)
    requires taken <==> Taken(op, t, vm.cpu.regs[s], vm.cpu.regs[t])
    requires StepVm(oracle, vm) == Some(v) && StepVm(oracle, v) == Some(w) && !w.cpu.exited
    ensures v.cpu.pc == (vm.cpu.pc + 4) % WORD_RANGE && v.cpu.regs == vm.cpu.regs && v.mem == vm.mem
    ensures w.cpu.pc == Lands(vm, imm, taken)
  {
    hide StepVm, NextIsI, SignedImm;
    BranchStep(oracle, vm, op, s, t, imm, taken);
    StepOrderly(oracle, v);
  }

  // ----- Jumps -----

  /** j and jal lead into the 256 MB region of the delay slot; jal leaves the address behind that in register 31. */
  lemma JumpStep(oracle: Oracle, vm: Vm, op: Six, index: nat)
    requires index < 0x400_0000 && NextInsn(vm) == Some(JType(op, index)) && op in {2, 3}
    ensures var dest: Word := vm.cpu.nextPC / 0x1000_0000 * 0x1000_0000 + 4 * index;
      var regs := if op == 3 then vm.cpu.regs[31 := (vm.cpu.pc + 8) % WORD_RANGE] else vm.cpu.regs;
      StepVm(oracle, vm) == if AfterJump(vm) then None else Some(Transferred(vm, regs, dest))
  {
    hide StepVm, NextInsn, JType, Opcode, AluOp, MemOp, Branch;
    var insn := JType(op, index);
    FieldsOfJ(op, index);
    var r := Exec(oracle, Ticked(vm.cpu), vm.cache, insn, 0);
    PlainStep(oracle, vm, insn, r);
  }

  /** jr and jalr lead to the address in a register; jalr leaves the address behind its delay slot in another. */
  lemma JumpRegisterStep(oracle: Oracle, vm: Vm, s: Reg, t: Reg, d: Reg, sh: Reg, fun: Six)
    requires NextIsR(vm, 0, s, t, d, sh, fun) && fun in {8, 9}
    ensures var regs := if fun == 9 then Put(vm.cpu.regs, d, (vm.cpu.pc + 8) % WORD_RANGE) else vm.cpu.regs;
      StepVm(oracle, vm) == if AfterJump(vm) then None else Some(Transferred(vm, regs, vm.cpu.regs[s]))
  {
    hide StepVm, NextInsn, NextIsR, Opcode, Funct, RsReg, RtReg, RdReg, MemOp, Branch, JumpTarget, Syscall, HiLo;
    DecodedR(vm, 0, s, t, d, sh, fun);
    var insn := NextInsn(vm).value;
    var r := Exec(oracle, Ticked(vm.cpu), vm.cache, insn, 0);
    assert Execute(insn, vm.cpu.regs[s], vm.cpu.regs[t], 0).Some?;
    PlainStep(oracle, vm, insn, r);
  }

  // ----- Register and immediate instructions -----

  // What the step computes from two operands goes to a register.
  lemma RegisterStep(oracle: Oracle, vm: Vm, op: Six, s: Reg, t: Reg, d: Reg, sh: Reg, fun: Six)
    requires NextIsR(vm, op, s, t, d, sh, fun) && op in {0, 0x1c} && !(op == 0 && 8 <= fun < 0x1c)
    ensures var insn, a, b := NextInsn(vm).value, vm.cpu.regs[s], vm.cpu.regs[t];
      var v := if op == 0 then Special(insn, a, b) else Special2(insn, a, b);
      StepVm(oracle, vm) == if v.None? then None else Some(Retired(vm, Put(vm.cpu.regs, d, v.value)))
  {
    hide StepVm, NextInsn, NextIsR, Opcode, Funct, RsReg, RtReg, RdReg, MemOp, Branch, JumpTarget, Special, Special2;
    DecodedR(vm, op, s, t, d, sh, fun);
    var insn := NextInsn(vm).value;
    var r := Exec(oracle, Ticked(vm.cpu), vm.cache, insn, 0);
    PlainStep(oracle, vm, insn, r);
  }

  // The same for an immediate operand.
  lemma ImmediateStep(oracle: Oracle, vm: Vm, op: Six, s: Reg, t: Reg, imm: Imm)
    requires NextIsI(vm, op, s, t, imm) && 8 <= op < 0x10
    ensures var b := if op in {0xc, 0xd, 0xe} then imm else SE(imm, 16);
      var v := Execute(NextInsn(vm).value, vm.cpu.regs[s], b, 0);
      StepVm(oracle, vm) == if v.None? then None else Some(Retired(vm, Put(vm.cpu.regs, t, v.value)))
  {
    hide StepVm, NextInsn, NextIsI, Opcode, Funct, Imm16, RsReg, RtReg, RdReg, MemOp, Branch, JumpTarget, Execute, SE;
    DecodedI(vm, op, s, t, imm);
    var insn := NextInsn(vm).value;
    var r := Exec(oracle, Ticked(vm.cpu), vm.cache, insn, 0);
    PlainStep(oracle, vm, insn, r);
  }
}
