/**
 What holds over every run of the VM.
 */
module VmRun {
  import opened Words
  import opened Merkle
  import opened FlatMemory
  import opened MemoryRange
  import opened Alu
  import opened Cpu
  import opened Wrappers

  // ----- One instruction -----

  // What every instruction does to the fields it does not mean to change.
  ghost predicate Orderly(before: Cpu, after: Cpu) {
    && after.step == before.step
    && (before.regs[0] == 0 ==> after.regs[0] == 0)
    && (if after.exited then after == before.(exited := true, exitCode := after.exitCode)
        else after.pc == before.nextPC)
    && (after.heap == before.heap || after.heap == Add(before.heap, PageRoundUp(before.regs[5])))
  }

  lemma JumpOrderly(cpu: Cpu, linkReg: nat, dest: Word)
    requires linkReg < 32 && !cpu.exited && Jump(cpu, linkReg, dest).Some?
    ensures Orderly(cpu, Jump(cpu, linkReg, dest).value)
  {
  }

  lemma BranchOrderly(cpu: Cpu, insn: Word)
    requires !cpu.exited && Branch(cpu, insn).Some?
    ensures Orderly(cpu, Branch(cpu, insn).value)
  {
    hide SE, ShouldBranch, PageRoundUp;
  }

  lemma RdOrderly(cpu: Cpu, c: Cpu, r: nat, v: Word)
    requires r < 32 && !cpu.exited && c == cpu.(hi := c.hi, lo := c.lo)
    ensures Orderly(cpu, Rd(c, r, v)) && Orderly(cpu, Advance(c))
  {
    hide PageRoundUp;
  }

  lemma HiLoOrderly(cpu: Cpu, fun: nat, rs: Word, rt: Word, rd: nat)
    requires rd < 32 && !cpu.exited && HiLo(cpu, fun, rs, rt, rd).Some?
    ensures Orderly(cpu, HiLo(cpu, fun, rs, rt, rd).value)
  {
    hide Rd, Orderly, Quot, Rem, Trunc, Signed;
    forall hi: Word, lo: Word, v: Word ensures Orderly(cpu, Rd(cpu.(hi := hi, lo := lo), rd, v)) {
      RdOrderly(cpu, cpu.(hi := hi, lo := lo), rd, v);
    }
  }

  lemma SyscallReturnOrderly(cpu: Cpu, c: Cpu, v0: Word, v1: Word)
    requires !cpu.exited && c == cpu.(heap := c.heap, preimageKey := c.preimageKey, preimageOffset := c.preimageOffset)
    requires c.heap == cpu.heap || c.heap == Add(cpu.heap, PageRoundUp(cpu.regs[5]))
    ensures Orderly(cpu, SyscallReturn(c, v0, v1))
  {
    hide PageRoundUp;
  }

  lemma PlainReturnsOrderly(cpu: Cpu)
    requires !cpu.exited
    ensures forall v0: Word, v1: Word :: Orderly(cpu, SyscallReturn(cpu, v0, v1))
  {
    forall v0: Word, v1: Word ensures Orderly(cpu, SyscallReturn(cpu, v0, v1)) {
      SyscallReturnOrderly(cpu, cpu, v0, v1);
    }
  }

  lemma ReadOrderly(oracle: Oracle, cpu: Cpu, cache: PreimageCache, word: Word)
    requires !cpu.exited && Read(oracle, cpu, cache, word).Next?
    ensures Orderly(cpu, Read(oracle, cpu, cache, word).cpu)
  {
    hide SyscallReturn, Fetch, PutBytes, ReadLen, Orderly;
    PlainReturnsOrderly(cpu);
    if cpu.regs[4] == FD_PREIMAGE_READ {
      var c := Fetch(oracle, cache, cpu.preimageKey);
      var n := ReadLen(|c.data| - cpu.preimageOffset, cpu.regs[5], cpu.regs[6]);
      SyscallReturnOrderly(cpu, cpu.(preimageOffset := Add(cpu.preimageOffset, n)), n, 0);
    }
  }

  lemma WriteOrderly(cpu: Cpu, word: Word)
    requires !cpu.exited
    ensures Orderly(cpu, Write(cpu, word))
  {
    hide SyscallReturn, ToBytes, Orderly;
    PlainReturnsOrderly(cpu);
    if cpu.regs[4] == FD_PREIMAGE_WRITE {
      var o := cpu.regs[5] % 4;
      var n := Min(cpu.regs[6], 4 - o);
      SyscallReturnOrderly(
        cpu, cpu.(preimageKey := cpu.preimageKey[n..] + ToBytes(word)[o..o + n], preimageOffset := 0), n, 0);
    }
  }

  lemma MmapOrderly(cpu: Cpu)
    requires !cpu.exited
    ensures Orderly(cpu, Mmap(cpu, cpu.regs[4], cpu.regs[5]))
  {
    hide SyscallReturn, PageRoundUp, Orderly;
    PlainReturnsOrderly(cpu);
    SyscallReturnOrderly(cpu, cpu.(heap := Add(cpu.heap, PageRoundUp(cpu.regs[5]))), cpu.heap, 0);
  }

  lemma SyscallOrderly(oracle: Oracle, cpu: Cpu, cache: PreimageCache, word: Word)
    requires !cpu.exited && Syscall(oracle, cpu, cache, word).Next?
    ensures Orderly(cpu, Syscall(oracle, cpu, cache, word).cpu)
  {
    hide SyscallReturn, Read, Write, Mmap;
    if cpu.regs[2] == SYS_MMAP {
      MmapOrderly(cpu);
    } else if cpu.regs[2] == SYS_READ {
      ReadOrderly(oracle, cpu, cache, word);
    } else if cpu.regs[2] == SYS_WRITE {
      WriteOrderly(cpu, word);
    } else if cpu.regs[2] != SYS_EXIT_GROUP {
      PlainReturnsOrderly(cpu);
    }
  }

  lemma AluOpOrderly(oracle: Oracle, cpu: Cpu, cache: PreimageCache, insn: Word, word: Word)
    requires !cpu.exited && AluOp(oracle, cpu, cache, insn, word).Next?
    ensures Orderly(cpu, AluOp(oracle, cpu, cache, insn, word).cpu)
  {
    hide Execute, Syscall, Rd, HiLo, Jump, Orderly, Operand, Advance;
    var opcode, fun := Opcode(insn), Funct(insn);
    var rs, rt := cpu.regs[RsReg(insn)], Operand(cpu, insn);
    var rd := if opcode == 0 || opcode == 0x1c then RdReg(insn) else RtReg(insn);
    if opcode == 0 && (fun == 8 || fun == 9) {
      JumpOrderly(cpu, if fun == 9 then rd else 0, rs);
    } else if opcode == 0 && fun == 0xc {
      SyscallOrderly(oracle, cpu, cache, word);
    } else if opcode == 0 && 0x10 <= fun < 0x1c {
      HiLoOrderly(cpu, fun, rs, rt, rd);
    } else {
      RdOrderly(cpu, cpu, rd, rs);
      RdOrderly(cpu, cpu, rd, Execute(insn, rs, rt, 0).value);
    }
  }

  lemma MemOpOrderly(cpu: Cpu, cache: PreimageCache, insn: Word, word: Word)
    requires !cpu.exited && MemOp(cpu, cache, insn, word).Next?
    ensures Orderly(cpu, MemOp(cpu, cache, insn, word).cpu)
  {
    hide Execute, EffAddr, Operand, PageRoundUp;
  }

  lemma ExecOrderly(oracle: Oracle, cpu: Cpu, cache: PreimageCache, insn: Word, word: Word)
    requires !cpu.exited && Exec(oracle, cpu, cache, insn, word).Next?
    ensures Orderly(cpu, Exec(oracle, cpu, cache, insn, word).cpu)
  {
    hide MemOp, AluOp, Jump, Branch, Orderly;
    var opcode := Opcode(insn);
    if opcode == 2 {
      JumpOrderly(cpu, 0, JumpTarget(cpu, insn));
    } else if opcode == 3 {
      JumpOrderly(cpu, 31, JumpTarget(cpu, insn));
    } else if opcode == 1 || 4 <= opcode < 8 {
      BranchOrderly(cpu, insn);
    } else if opcode >= 0x20 {
      MemOpOrderly(cpu, cache, insn, word);
    } else {
      AluOpOrderly(oracle, cpu, cache, insn, word);
    }
  }

  // ----- One step -----

  /** A step that does not exit moves the program counter to the old nextPC; a step that exits leaves
      everything but the exit fields and the step counter; a machine that has exited stays as it is. */
  lemma StepOrderly(oracle: Oracle, vm: Vm)
    requires StepVm(oracle, vm).Some?
    ensures var v := StepVm(oracle, vm).value;
      && (vm.cpu.exited ==> v == vm)
      && (!vm.cpu.exited ==> Orderly(Ticked(vm.cpu), v.cpu))
  {
    hide Exec, Orderly, Store, StorePages, FetchData, AccessOf, PrintPanics;
    if !vm.cpu.exited {
      var insn := WordAt(vm.mem, vm.cpu.pc);
      ExecOrderly(oracle, Ticked(vm.cpu), vm.cache, insn, FetchData(vm.mem, AccessOf(vm.cpu, insn)));
    }
  }

  // Jumps and branches, and where they lead.
  predicate IsTransfer(insn: Word) {
    1 <= Opcode(insn) < 8 || (Opcode(insn) == 0 && Funct(insn) in {8, 9})
  }

  function Destination(cpu: Cpu, insn: Word): Word {
    if Opcode(insn) == 2 || Opcode(insn) == 3 then JumpTarget(cpu, insn)
    else if Opcode(insn) == 0 then cpu.regs[RsReg(insn)]
    else if ShouldBranch(insn, cpu.regs[RsReg(insn)], cpu.regs[RtReg(insn)]) then
      Add(Add(cpu.pc, 4), Shl(SE(Imm16(insn), 16), 2))
    else Add(cpu.pc, 8)
  }

  lemma TransferSetsNext(oracle: Oracle, cpu: Cpu, cache: PreimageCache, insn: Word, word: Word)
    requires IsTransfer(insn) && Exec(oracle, cpu, cache, insn, word).Next?
    ensures cpu.nextPC == Add(cpu.pc, 4)
    ensures Exec(oracle, cpu, cache, insn, word).cpu.nextPC == Destination(cpu, insn)
  {
    hide SE, Shl, ShouldBranch, JumpTarget, Execute;
  }

  lemma DestinationWhenTicked(cpu: Cpu, insn: Word)
    ensures Destination(Ticked(cpu), insn) == Destination(cpu, insn)
  {
    hide SE, Shl, ShouldBranch;
  }

  /** A jump or branch lands at its destination after exactly one delay slot. */
  lemma OneDelaySlot(oracle: Oracle, vm: Vm, v: Vm, w: Vm)
    requires !vm.cpu.exited && StepVm(oracle, vm) == Some(v) && IsTransfer(WordAt(vm.mem, vm.cpu.pc))
    requires StepVm(oracle, v) == Some(w) && !v.cpu.exited && !w.cpu.exited
    ensures v.cpu.pc == Add(vm.cpu.pc, 4)
    ensures w.cpu.pc == Destination(vm.cpu, WordAt(vm.mem, vm.cpu.pc))
  {
    hide Exec, Destination, IsTransfer, AccessOf, FetchData, Store, StorePages, WordAt, PrintPanics;
    StepOrderly(oracle, vm);
    StepOrderly(oracle, v);
    var insn := WordAt(vm.mem, vm.cpu.pc);
    TransferSetsNext(oracle, Ticked(vm.cpu), vm.cache, insn, FetchData(vm.mem, AccessOf(vm.cpu, insn)));
    DestinationWhenTicked(vm.cpu, insn);
  }

  // ----- Whole runs -----

  // Kept by every step, from the state the loader builds.
  predicate Sound(c: Cpu) {
    c.regs[0] == 0 && c.heap % 4096 == 0
  }

  lemma PageRoundUpAligned(a1: Word, heap: Word)
    requires heap % 4096 == 0
    ensures PageRoundUp(a1) % 4096 == 0 && Add(heap, PageRoundUp(a1)) % 4096 == 0
  {
    var sz := PageRoundUp(a1);
    assert sz % 4096 == 0;
  }

  lemma {:induction false} RunSound(oracle: Oracle, vm: Vm, n: nat)
    requires Sound(vm.cpu) && RunVm(oracle, vm, n).Some?
    ensures Sound(RunVm(oracle, vm, n).value.cpu)
  {
    hide StepVm, PageRoundUp;
    if n > 0 {
      var prev := RunVm(oracle, vm, n - 1).value;
      RunSound(oracle, vm, n - 1);
      StepOrderly(oracle, prev);
      PageRoundUpAligned(prev.cpu.regs[5], prev.cpu.heap);
    }
  }

  /** The step counter counts the steps taken until exit, after which nothing moves. */
  lemma {:induction false} RunCountsSteps(oracle: Oracle, vm: Vm, n: nat)
    requires RunVm(oracle, vm, n).Some? && vm.cpu.step + n < UINT64_RANGE
    ensures var v := RunVm(oracle, vm, n).value.cpu;
      && vm.cpu.step <= v.step <= vm.cpu.step + n
      && (!v.exited ==> v.step == vm.cpu.step + n)
      && (v.exited && !vm.cpu.exited ==>
            exists k :: 1 <= k <= n && v.step == vm.cpu.step + k && RunVm(oracle, vm, k) == RunVm(oracle, vm, n))
      && (vm.cpu.exited ==> RunVm(oracle, vm, n) == Some(vm))
  {
    hide StepVm, PageRoundUp;
    if n > 0 {
      var prev := RunVm(oracle, vm, n - 1).value;
      RunCountsSteps(oracle, vm, n - 1);
      StepOrderly(oracle, prev);
      if prev.cpu.exited && !vm.cpu.exited {
        var k :| 1 <= k <= n - 1 && prev.cpu.step == vm.cpu.step + k && RunVm(oracle, vm, k) == RunVm(oracle, vm, n - 1);
        assert RunVm(oracle, vm, k) == RunVm(oracle, vm, n);
      }
    }
  }
}
