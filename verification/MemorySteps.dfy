/**
 Steps of the VM for loads and stores, on the bytes of the flat memory.  The memory
 is big-endian; half words and words are taken at the aligned address at or below
 the one given.
 */
module MemorySteps {
  import opened Words
  import opened Merkle
  import opened Page
  import opened FlatMemory
  import opened Alu
  import opened LoadStoreBytes
  import opened Cpu
  import opened VmHistory
  import opened UnalignedSteps
  import opened Instructions
  import opened Wrappers

  // The address a load or store is given.
  function Address(vm: Vm, s: Reg, imm: Imm): Word {
    (vm.cpu.regs[s] + SignedImm(imm)) % WORD_RANGE
  }

  lemma AssembledIs(vm: Vm, op: Six, s: Reg, t: Reg, imm: Imm)
    requires NextIsI(vm, op, s, t, imm)
    ensures NextIs(vm, op, t, Address(vm, s, imm))
  {
    hide SE, NextIsI, NextInsn;
    DecodedI(vm, op, s, t, imm);
    SignedHalf(imm);
    SumWraps(vm.cpu.regs[s], SE(imm, 16), SignedImm(imm));
  }

  lemma SumWraps(a: Word, x: Word, y: int)
    requires x == y || x == y + WORD_RANGE
    ensures Add(a, x) == (a + y) % WORD_RANGE
  {
  }

  lemma MemoryExec(oracle: Oracle, vm: Vm, op: Six, t: Reg, a: Word)
    requires NextIs(vm, op, t, a) && op >= 0x20
    ensures var insn := NextInsn(vm).value;
      && EffAddr(Ticked(vm.cpu), insn) == a && AccessOf(vm.cpu, insn) == Some(AlignDown(a)) && !IsSyscall(insn)
      && Exec(oracle, Ticked(vm.cpu), vm.cache, insn, WordAt(vm.mem, AlignDown(a)))
         == MemOp(Ticked(vm.cpu), vm.cache, insn, WordAt(vm.mem, AlignDown(a)))
  {
    hide NextInsn, Opcode, RtReg, RsReg, Imm16, Funct, SE, MemOp, WordAt, AlignDown;
  }

  lemma LoadOp(cpu: Cpu, cache: PreimageCache, insn: Word, word: Word, v: Word)
    requires 0x20 <= Opcode(insn) < 0x28 || Opcode(insn) == 0x30
    requires var rt := if Opcode(insn) in {0x22, 0x26, 0x30} then cpu.regs[RtReg(insn)] else 0;
      LoadStore(Opcode(insn), EffAddr(cpu, insn), rt, word) == Some(v)
    ensures MemOp(cpu, cache, insn, word) == Next(Rd(cpu, RtReg(insn), v), cache, None)
  {
    hide Opcode, RtReg, EffAddr, LoadStore, Special, Special2, Rd;
  }

  // A load puts what it computes from the addressed word into the register.
  lemma LoadIs(oracle: Oracle, vm: Vm, op: Six, t: Reg, a: Word, v: Word)
    requires NextIs(vm, op, t, a) && (0x20 <= op < 0x28 || op == 0x30)
    requires var rt := if op in {0x22, 0x26, 0x30} then vm.cpu.regs[t] else 0;
      LoadStore(op, a, rt, WordAt(vm.mem, AlignDown(a))) == Some(v)
    ensures StepVm(oracle, vm) == Some(Retired(vm, Put(vm.cpu.regs, t, v)))
  {
    hide StepVm, Exec, MemOp, EffAddr, AccessOf, IsSyscall, LoadStore, WordAt, Opcode, RtReg, AlignDown, NextInsn;
    var insn := NextInsn(vm).value;
    MemoryExec(oracle, vm, op, t, a);
    StepUnfolds(oracle, vm, insn);
    LoadOp(Ticked(vm.cpu), vm.cache, insn, WordAt(vm.mem, AlignDown(a)), v);
  }

  // The VM after a store that leaves this memory.
  function Stored(vm: Vm, regs: RegFile, a: Word, mem: Flat): Vm {
    Retired(vm, regs).(mem := mem, pages := vm.pages + {a / 4096})
  }

  // A store writes what it computes to the addressed word; sc besides sets its register to 1.
  lemma StoreIs(oracle: Oracle, vm: Vm, op: Six, t: Reg, a: Word, v: Word)
    requires NextIs(vm, op, t, a) && op >= 0x28 && op != 0x30
    requires LoadStore(op, a, vm.cpu.regs[t], WordAt(vm.mem, AlignDown(a))) == Some(v)
    ensures StepVm(oracle, vm) ==
      Some(Stored(vm, if op == 0x38 then Put(vm.cpu.regs, t, 1) else vm.cpu.regs, a, WithWord(vm.mem, AlignDown(a), v)))
  {
    hide StepVm, Exec, MemOp, EffAddr, AccessOf, IsSyscall, LoadStore, WordAt, WithWord, Opcode, RtReg, AlignDown,
         NextInsn;
    var insn := NextInsn(vm).value;
    MemoryExec(oracle, vm, op, t, a);
    StepUnfolds(oracle, vm, insn);
    StoreOp(Ticked(vm.cpu), vm.cache, insn, WordAt(vm.mem, AlignDown(a)), v);
    SamePage(a);
  }

  lemma StoreOp(cpu: Cpu, cache: PreimageCache, insn: Word, word: Word, v: Word)
    requires var op := Opcode(insn);
      op >= 0x28 && op != 0x30 && LoadStore(op, EffAddr(cpu, insn), cpu.regs[RtReg(insn)], word) == Some(v)
    ensures var regs := if Opcode(insn) == 0x38 then Put(cpu.regs, RtReg(insn), 1) else cpu.regs;
      MemOp(cpu, cache, insn, word) == Next(Advance(cpu.(regs := regs)), cache, Some(v))
  {
    hide Opcode, RtReg, EffAddr, LoadStore, Special, Special2, Advance;
  }

  lemma SamePage(a: Word)
    ensures AlignDown(a) / PAGE_SIZE == a / 4096
  {
  }

  // Bytes of memory as a big-endian number.
  function HalfAt(mem: Flat, a: Word): Word {
    var hi: int, lo := mem[a - a % 2], mem[a - a % 2 + 1];
    256 * hi + lo
  }

  function FullAt(mem: Flat, a: Word): Word {
    var w := a - a % 4;
    var b0: int, b1: int, b2: int, b3 := mem[w], mem[w + 1], mem[w + 2], mem[w + 3];
    0x100_0000 * b0 + 0x1_0000 * b1 + 256 * b2 + b3
  }

  lemma BytesOfWord(mem: Flat, a: Word)
    ensures var word := WordAt(mem, AlignDown(a));
      && ByteOf(word, a % 4) == mem[a] && HalfOf(word, a / 2 % 2 * 2) == HalfAt(mem, a) && word == FullAt(mem, a)
  {
    hide ToBytes, WordAt, AlignDown, FullAt;
    WordBytesAt(mem, a);
    WordIsBytes(mem, a);
    Places(a);
  }

  // Where a byte and a half word are in their word.
  lemma Places(a: Word)
    ensures a == AlignDown(a) + a % 4 && a - a % 2 == AlignDown(a) + a / 2 % 2 * 2 && AlignDown(a) + 4 <= WORD_RANGE
  {
    var h := a / 2;
    assert a == 2 * h + a % 2 && h == 2 * (h / 2) + h % 2 && a / 4 == h / 2;
  }

  lemma WordIsBytes(mem: Flat, a: Word)
    ensures WordAt(mem, AlignDown(a)) == FullAt(mem, a)
  {
  }

  /** lb, lh, lw, lbu, lhu, ll */
  lemma LoadStep(oracle: Oracle, vm: Vm, op: Six, s: Reg, t: Reg, imm: Imm) returns (v: Word)
    requires NextIsI(vm, op, s, t, imm) && op in {0x20, 0x21, 0x23, 0x24, 0x25, 0x30}
    ensures StepVm(oracle, vm) == Some(Retired(vm, Put(vm.cpu.regs, t, v)))
    ensures var a := Address(vm, s, imm);
      match op
      case 0x20 => Signed(v) == if vm.mem[a] < 128 then vm.mem[a] else vm.mem[a] as int - 256
      case 0x24 => v == vm.mem[a]
      case 0x21 => Signed(v) == if HalfAt(vm.mem, a) < 0x8000 then HalfAt(vm.mem, a) else HalfAt(vm.mem, a) - 0x1_0000
      case 0x25 => v == HalfAt(vm.mem, a)
      case _ => v == FullAt(vm.mem, a)
  {
    hide StepVm, NextInsn, NextIsI, NextIs, Retired, WordAt, SE, And, Shr, Signed, HalfAt, FullAt, ByteOf, HalfOf;
    var a, word := Address(vm, s, imm), WordAt(vm.mem, AlignDown(Address(vm, s, imm)));
    AssembledIs(vm, op, s, t, imm);
    BytesOfWord(vm.mem, a);
    Lb(a, 0, word);
    Lh(a, 0, word);
    v := LoadStore(op, a, if op == 0x30 then vm.cpu.regs[t] else 0, word).value;
    LoadIs(oracle, vm, op, t, a, v);
  }

  // The memory with the low byte, the low half or all of a word stored at an address.
  function StoredAt(op: Six, mem: Flat, a: Word, v: Word): Flat {
    match op
    case 0x28 => mem[a := v % 256]
    case 0x29 => mem[a - a % 2 := v / 256 % 256][a - a % 2 + 1 := v % 256]
    case _ => Patched(mem, a - a % 4, [v / 0x100_0000, v / 0x1_0000 % 256, v / 256 % 256, v % 256])
  }

  lemma StoredByte(mem: Flat, a: Word, v: Word)
    ensures var r := LoadStore(0x28, a, v, WordAt(mem, AlignDown(a)));
      r.Some? && WithWord(mem, AlignDown(a), r.value) == StoredAt(0x28, mem, a, v)
  {
    hide LoadStore, WordAt, ToBytes;
    Sb(a, v, WordAt(mem, AlignDown(a)));
    WordBytesAt(mem, a);
    assert a == AlignDown(a) + a % 4;
  }

  lemma StoredHalf(mem: Flat, a: Word, v: Word)
    ensures var r := LoadStore(0x29, a, v, WordAt(mem, AlignDown(a)));
      r.Some? && WithWord(mem, AlignDown(a), r.value) == StoredAt(0x29, mem, a, v)
  {
    hide LoadStore, WordAt, ToBytes;
    Sh(a, v, WordAt(mem, AlignDown(a)));
    WordBytesAt(mem, a);
    assert a - a % 2 == AlignDown(a) + a / 2 % 2 * 2;
    assert v % 0x1_0000 / 256 == v / 256 % 256 && v % 0x1_0000 % 256 == v % 256;
    ChangeInside(mem, AlignDown(a), a / 2 % 2 * 2, v / 256 % 256, v % 256);
  }

  lemma ChangeInside(mem: seq<Byte>, w: nat, o: nat, x: Byte, y: Byte)
    requires w + 4 <= |mem| && o + 1 < 4
    ensures mem[..w] + mem[w..w + 4][o := x][o + 1 := y] + mem[w + 4..] == mem[w + o := x][w + o + 1 := y]
  {
  }

  lemma StoredFull(op: Six, mem: Flat, a: Word, v: Word)
    requires op in {0x2b, 0x38}
    ensures var r := LoadStore(op, a, v, WordAt(mem, AlignDown(a)));
      r == Some(v) && WithWord(mem, AlignDown(a), v) == StoredAt(op, mem, a, v)
  {
    hide WordAt;
    DivideTwice(v);
  }

  /** sb, sh, sw, sc: exactly the addressed bytes change. */
  lemma StoreStep(oracle: Oracle, vm: Vm, op: Six, s: Reg, t: Reg, imm: Imm)
    requires NextIsI(vm, op, s, t, imm) && op in {0x28, 0x29, 0x2b, 0x38}
    ensures var a, regs := Address(vm, s, imm), vm.cpu.regs;
      StepVm(oracle, vm) ==
        Some(Stored(vm, if op == 0x38 then Put(regs, t, 1) else regs, a, StoredAt(op, vm.mem, a, regs[t])))
  {
    hide StepVm, NextInsn, NextIsI, NextIs, WordAt, WithWord, StoredAt, LoadStore, Stored;
    var a, v := Address(vm, s, imm), vm.cpu.regs[t];
    AssembledIs(vm, op, s, t, imm);
    if op == 0x28 {
      StoredByte(vm.mem, a, v);
    } else if op == 0x29 {
      StoredHalf(vm.mem, a, v);
    } else {
      StoredFull(op, vm.mem, a, v);
    }
    StoreIs(oracle, vm, op, t, a, LoadStore(op, a, v, WordAt(vm.mem, AlignDown(a))).value);
  }

  /** An opcode from 0x20 on that is no load or store panics. */
  lemma UnknownMemoryStep(oracle: Oracle, vm: Vm)
    requires NextInsn(vm).Some?
    requires var op := NextInsn(vm).value / 0x400_0000;
      0x20 <= op && op !in {0x20, 0x21, 0x22, 0x23, 0x24, 0x25, 0x26, 0x28, 0x29, 0x2a, 0x2b, 0x2e, 0x30, 0x38}
    ensures StepVm(oracle, vm).None?
  {
    hide StepVm, NextInsn, EffAddr, FetchData, WordAt;
    StepUnfolds(oracle, vm, NextInsn(vm).value);
  }
}
