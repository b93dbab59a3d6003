/**
 Storing and loading a word at any address with the instruction pairs swl/swr
 and lwl/lwr, through whole steps of the VM.
 */
module UnalignedSteps {
  import opened Words
  import opened Merkle
  import opened Page
  import opened FlatMemory
  import opened MemoryRange
  import opened Alu
  import opened LoadStoreBytes
  import opened Cpu
  import opened VmHistory
  import opened Wrappers

  // ----- One step -----

  // The next instruction is this load or store, of the register rt, and addresses the byte a.
  predicate NextIs(vm: Vm, opcode: nat, rt: nat, a: Word) {
    && NextInsn(vm).Some?
    && var insn := NextInsn(vm).value; Opcode(insn) == opcode && RtReg(insn) == rt && EffAddr(vm.cpu, insn) == a
  }

  // What the next step computes from the register rt and the memory word around a.
  function Loaded(vm: Vm, opcode: nat, rt: nat, a: Word): Option<Word>
    requires rt < 32
  {
    LoadStore(opcode, a, vm.cpu.regs[rt], WordAt(vm.mem, AlignDown(a)))
  }

  lemma StoreStep(oracle: Oracle, vm: Vm, opcode: nat, rt: nat, a: Word)
    requires rt < 32 && opcode in {0x2a, 0x2e} && NextIs(vm, opcode, rt, a)
    ensures Loaded(vm, opcode, rt, a).Some?
    ensures StepVm(oracle, vm) ==
      Some(Vm(Advance(Ticked(vm.cpu)), vm.cache, WithWord(vm.mem, AlignDown(a), Loaded(vm, opcode, rt, a).value),
              vm.pages + {AlignDown(a) / PAGE_SIZE}))
  {
    hide WordAt, WithWord, LoadStore, Special, Special2, AluOp, Branch, ToBytes, SE;
    Swl(a, vm.cpu.regs[rt], WordAt(vm.mem, AlignDown(a)));
    Swr(a, vm.cpu.regs[rt], WordAt(vm.mem, AlignDown(a)));
  }

  lemma LoadStep(oracle: Oracle, vm: Vm, opcode: nat, rt: nat, a: Word)
    requires 0 < rt < 32 && opcode in {0x22, 0x26} && NextIs(vm, opcode, rt, a)
    ensures Loaded(vm, opcode, rt, a).Some?
    ensures StepVm(oracle, vm) ==
      Some(Vm(Rd(Ticked(vm.cpu), rt, Loaded(vm, opcode, rt, a).value), vm.cache, vm.mem, vm.pages))
  {
    hide WordAt, WithWord, LoadStore, Special, Special2, AluOp, Branch, ToBytes, SE;
    Lwl(a, vm.cpu.regs[rt], WordAt(vm.mem, AlignDown(a)));
    Lwr(a, vm.cpu.regs[rt], WordAt(vm.mem, AlignDown(a)));
  }

  // ----- Bytes of the memory -----

  // The memory with the bytes bs from address a on.
  function Patched(mem: seq<Byte>, a: nat, bs: seq<Byte>): seq<Byte>
    requires a + |bs| <= |mem|
  {
    mem[..a] + bs + mem[a + |bs|..]
  }

  lemma WordBytesAt(mem: Flat, a: Word)
    ensures AlignDown(a) + 4 <= WORD_RANGE && ToBytes(WordAt(mem, AlignDown(a))) == mem[AlignDown(a)..AlignDown(a) + 4]
  {
    hide ToBytes, FromBytes;
    WordFits(a);
    BytesRoundTrip(mem[AlignDown(a)..AlignDown(a) + 4]);
  }

  lemma SwlPatches(oracle: Oracle, vm: Vm, v: Vm, rt: nat, a: Word)
    requires rt < 32 && NextIs(vm, 0x2a, rt, a) && StepVm(oracle, vm) == Some(v)
    ensures var n := 4 - a % 4; a + n <= WORD_RANGE && v.mem == Patched(vm.mem, a, ToBytes(vm.cpu.regs[rt])[..n])
    ensures v.cpu.regs == vm.cpu.regs
  {
    hide StepVm, ToBytes, WordAt, LoadStore, NextIs;
    StoreStep(oracle, vm, 0x2a, rt, a);
    WordBytesAt(vm.mem, a);
    Swl(a, vm.cpu.regs[rt], WordAt(vm.mem, AlignDown(a)));
    assert vm.mem[..a] == vm.mem[..AlignDown(a)] + vm.mem[AlignDown(a)..AlignDown(a) + 4][..a % 4];
  }

  lemma SwrPatches(oracle: Oracle, vm: Vm, v: Vm, rt: nat, a: Word)
    requires rt < 32 && NextIs(vm, 0x2e, rt, a) && StepVm(oracle, vm) == Some(v)
    ensures v.mem == Patched(vm.mem, a - a % 4, ToBytes(vm.cpu.regs[rt])[3 - a % 4..])
    ensures v.cpu.regs == vm.cpu.regs
  {
    hide StepVm, ToBytes, WordAt, LoadStore, NextIs;
    StoreStep(oracle, vm, 0x2e, rt, a);
    WordBytesAt(vm.mem, a);
    Swr(a, vm.cpu.regs[rt], WordAt(vm.mem, AlignDown(a)));
    var o := a % 4;
    var word := vm.mem[AlignDown(a)..AlignDown(a) + 4];
    assert vm.mem[AlignDown(a) + (o + 1)..] == word[o + 1..] + vm.mem[AlignDown(a) + 4..];
  }

  lemma LwlReads(oracle: Oracle, vm: Vm, v: Vm, rt: nat, a: Word)
    requires 0 < rt < 32 && NextIs(vm, 0x22, rt, a) && StepVm(oracle, vm) == Some(v)
    ensures var n := 4 - a % 4;
      a + n <= WORD_RANGE && ToBytes(v.cpu.regs[rt]) == vm.mem[a..a + n] + ToBytes(vm.cpu.regs[rt])[n..]
    ensures v.mem == vm.mem
  {
    hide StepVm, ToBytes, WordAt, LoadStore, NextIs;
    LoadStep(oracle, vm, 0x22, rt, a);
    WordBytesAt(vm.mem, a);
    Lwl(a, vm.cpu.regs[rt], WordAt(vm.mem, AlignDown(a)));
    SliceOfSlice(vm.mem, AlignDown(a), 4, a % 4, 4 - a % 4);
  }

  lemma LwrReads(oracle: Oracle, vm: Vm, v: Vm, rt: nat, a: Word)
    requires 0 < rt < 32 && NextIs(vm, 0x26, rt, a) && StepVm(oracle, vm) == Some(v)
    ensures ToBytes(v.cpu.regs[rt]) == ToBytes(vm.cpu.regs[rt])[..3 - a % 4] + vm.mem[a - a % 4..a + 1]
    ensures v.mem == vm.mem
  {
    hide StepVm, ToBytes, WordAt, LoadStore, NextIs;
    LoadStep(oracle, vm, 0x26, rt, a);
    WordBytesAt(vm.mem, a);
    Lwr(a, vm.cpu.regs[rt], WordAt(vm.mem, AlignDown(a)));
    SliceOfSlice(vm.mem, AlignDown(a), 4, 0, a % 4 + 1);
  }

  // ----- Pairs of steps -----

  // The upper part of a word at a and its lower part at a + 3 are next to each other.
  lemma PartsMeet(a: Word)
    requires a + 3 < WORD_RANGE
    ensures var e: int := a + 3; e - e % 4 == if a % 4 == 0 then a as int else a + (4 - a % 4)
    ensures var e: int := a + 3; 3 - e % 4 == if a % 4 == 0 then 0 else 4 - a % 4
  {
  }

  /** swl at a and swr at a + 3 store the register as the four big-endian bytes a..a + 3, at any alignment. */
  lemma StoreUnaligned(oracle: Oracle, vm: Vm, v: Vm, w: Vm, rt: nat, a: Word)
    requires rt < 32 && a + 3 < WORD_RANGE
    requires NextIs(vm, 0x2a, rt, a) && StepVm(oracle, vm) == Some(v)
    requires NextIs(v, 0x2e, rt, a + 3) && StepVm(oracle, v) == Some(w)
    ensures w.mem == Patched(vm.mem, a, ToBytes(vm.cpu.regs[rt])) && w.cpu.regs == vm.cpu.regs
  {
    hide StepVm, ToBytes, NextIs;
    SwlPatches(oracle, vm, v, rt, a);
    SwrPatches(oracle, v, w, rt, a + 3);
    PartsMeet(a);
    var bs, n := ToBytes(vm.cpu.regs[rt]), 4 - a % 4;
    if a % 4 != 0 {
      PatchTwice(vm.mem, a, bs, n);
    } else {
      assert bs[..4] == bs && bs[0..] == bs;
      assert Patched(Patched(vm.mem, a, bs), a, bs) == Patched(vm.mem, a, bs);
    }
  }

  lemma PatchTwice(mem: seq<Byte>, a: nat, bs: seq<Byte>, n: nat)
    requires a + |bs| <= |mem| && n <= |bs|
    ensures Patched(Patched(mem, a, bs[..n]), a + n, bs[n..]) == Patched(mem, a, bs)
  {
  }

  /** lwl at a and lwr at a + 3 load the four bytes a..a + 3, at any alignment. */
  lemma LoadUnaligned(oracle: Oracle, vm: Vm, v: Vm, w: Vm, rt: nat, a: Word)
    requires 0 < rt < 32 && a + 3 < WORD_RANGE
    requires NextIs(vm, 0x22, rt, a) && StepVm(oracle, vm) == Some(v)
    requires NextIs(v, 0x26, rt, a + 3) && StepVm(oracle, v) == Some(w)
    ensures ToBytes(w.cpu.regs[rt]) == vm.mem[a..a as int + 4] && w.mem == vm.mem
  {
    hide StepVm, ToBytes, NextIs;
    LwlReads(oracle, vm, v, rt, a);
    LwrReads(oracle, v, w, rt, a + 3);
    PartsMeet(a);
  }

  /** Whatever is stored at an address with swl and swr is loaded back from it with lwl and lwr, and no byte
      outside the four addressed ones changes. */
  lemma UnalignedRoundTrip(oracle: Oracle, t: seq<Vm>, rt: nat, rt': nat, a: Word)
    requires |t| == 5 && IsRun(oracle, t) && rt < 32 && 0 < rt' < 32 && a + 3 < WORD_RANGE
    requires NextIs(t[0], 0x2a, rt, a) && NextIs(t[1], 0x2e, rt, a + 3)
    requires NextIs(t[2], 0x22, rt', a) && NextIs(t[3], 0x26, rt', a + 3)
    ensures t[4].cpu.regs[rt'] == t[0].cpu.regs[rt]
    ensures forall j :: 0 <= j < WORD_RANGE && !(a <= j <= a + 3) ==> t[4].mem[j] == t[0].mem[j]
  {
    hide StepVm, ToBytes, NextIs;
    StoreUnaligned(oracle, t[0], t[1], t[2], rt, a);
    LoadUnaligned(oracle, t[2], t[3], t[4], rt', a);
    WordRoundTrip(t[0].cpu.regs[rt]);
    WordRoundTrip(t[4].cpu.regs[rt']);
  }
}
