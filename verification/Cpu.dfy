/**
 One step of the VM as a function of values.  The step of the processor proper
 never sees the memory: it is given the instruction word and the one data word
 it addresses, and says which word to store back, if any.
 */
module Cpu {
  import opened Words
  import opened Merkle
  import opened Page
  import opened FlatMemory
  import opened MemoryRange
  import opened Alu
  import opened Wrappers

  const SYS_MMAP := 4090
  const SYS_BRK := 4045
  const SYS_CLONE := 4120
  const SYS_EXIT_GROUP := 4246
  const SYS_READ := 4003
  const SYS_WRITE := 4004
  const SYS_FCNTL := 4055

  const FD_STDIN := 0
  const FD_STDOUT := 1
  const FD_STDERR := 2
  const FD_HINT_READ := 3
  const FD_HINT_WRITE := 4
  const FD_PREIMAGE_READ := 5
  const FD_PREIMAGE_WRITE := 6

  const MIPS_EBADF: Word := 0x9
  const MIPS_EINVAL: Word := 0x16

  type RegFile = r: seq<Word> | |r| == 32 witness seq(32, i => 0)
  type Oracle = Hash -> seq<Byte>

  datatype Cpu = Cpu(
    pc: Word, nextPC: Word, lo: Word, hi: Word, heap: Word, regs: RegFile,
    preimageKey: Hash, preimageOffset: Word,
    exitCode: Byte, exited: bool, step: Uint64)

  // The pre-image last fetched, with its length prefix, and its key.
  datatype PreimageCache = PreimageCache(key: Hash, data: seq<Byte>)

  // What one instruction does: a Go panic, or a new processor state and possibly a word to store.
  datatype Effect = Fault | Next(cpu: Cpu, cache: PreimageCache, store: Option<Word>)

  // ----- Instruction fields -----

  function RsReg(insn: Word): (r: nat)
    ensures r < 32
  {
    insn / 0x20_0000 % 32
  }

  function RtReg(insn: Word): (r: nat)
    ensures r < 32
  {
    insn / 0x1_0000 % 32
  }

  function RdReg(insn: Word): (r: nat)
    ensures r < 32
  {
    insn / 0x800 % 32
  }

  function AlignDown(addr: Word): (a: Word)
    ensures Aligned(a) && a <= addr < a + 4
  {
    addr - addr % 4
  }

  // ----- Control transfer -----

  function SetReg(regs: RegFile, r: nat, v: Word): RegFile
    requires r < 32
  {
    if r == 0 then regs else regs[r := v]
  }

  function Advance(cpu: Cpu): Cpu {
    cpu.(pc := cpu.nextPC, nextPC := Add(cpu.nextPC, 4))
  }

  function InDelaySlot(cpu: Cpu): bool {
    cpu.nextPC != Add(cpu.pc, 4)
  }

  // Jump after one delay slot; None is the panic of a jump inside a delay slot.
  function Jump(cpu: Cpu, linkReg: nat, dest: Word): Option<Cpu>
    requires linkReg < 32
  {
    if InDelaySlot(cpu) then None
    else Some(cpu.(pc := cpu.nextPC, nextPC := dest, regs := SetReg(cpu.regs, linkReg, Add(cpu.pc, 8))))
  }

  function JumpTarget(cpu: Cpu, insn: Word): Word {
    cpu.nextPC - cpu.nextPC % 0x1000_0000 + insn % 0x400_0000 * 4
  }

  predicate ShouldBranch(insn: Word, rs: Word, rt: Word) {
    var opcode := Opcode(insn);
    if opcode == 4 then rs == rt // beq
    else if opcode == 5 then rs != rt // bne
    else if opcode == 6 then Signed(rs) <= 0 // blez
    else if opcode == 7 then Signed(rs) > 0 // bgtz
    else if RtReg(insn) == 0 then Signed(rs) < 0 // bltz
    else if RtReg(insn) == 1 then Signed(rs) >= 0 // bgez
    else false
  }

  function Branch(cpu: Cpu, insn: Word): Option<Cpu> {
    if InDelaySlot(cpu) then None
    else if ShouldBranch(insn, cpu.regs[RsReg(insn)], cpu.regs[RtReg(insn)]) then
      Some(cpu.(pc := cpu.nextPC, nextPC := Add(Add(cpu.pc, 4), Shl(SE(Imm16(insn), 16), 2))))
    else Some(Advance(cpu))
  }

  // ----- Registers -----

  function Rd(cpu: Cpu, r: nat, v: Word): Cpu
    requires r < 32
  {
    Advance(cpu.(regs := SetReg(cpu.regs, r, v)))
  }

  // Go's truncated quotient and remainder.
  function Quot(a: int, b: int): int
    requires b != 0
  {
    if a >= 0 then a / b else -(-a / b)
  }

  function Rem(a: int, b: int): int
    requires b != 0
  {
    a - b * Quot(a, b)
  }

  function HiLo(cpu: Cpu, fun: nat, rs: Word, rt: Word, rd: nat): Option<Cpu>
    requires rd < 32
  {
    if fun == 0x10 then Some(Rd(cpu, rd, cpu.hi)) // mfhi
    else if fun == 0x11 then Some(Rd(cpu.(hi := rs), rd, 0)) // mthi
    else if fun == 0x12 then Some(Rd(cpu, rd, cpu.lo)) // mflo
    else if fun == 0x13 then Some(Rd(cpu.(lo := rs), rd, 0)) // mtlo
    else if fun == 0x18 then // mult
      var acc := Signed(rs) * Signed(rt);
      Some(Rd(cpu.(hi := Trunc(acc / WORD_RANGE), lo := Trunc(acc)), rd, 0))
    else if fun == 0x19 then // multu
      var acc := rs * rt;
      Some(Rd(cpu.(hi := Trunc(acc / WORD_RANGE), lo := Trunc(acc)), rd, 0))
    else if fun == 0x1a then // div
      if rt == 0 then None
      else Some(Rd(cpu.(hi := Trunc(Rem(Signed(rs), Signed(rt))), lo := Trunc(Quot(Signed(rs), Signed(rt)))), rd, 0))
    else if fun == 0x1b then // divu
      if rt == 0 then None else Some(Rd(cpu.(hi := rs % rt, lo := rs / rt), rd, 0))
    else Some(Rd(cpu, rd, 0))
  }

  // ----- System calls -----

  // binary.BigEndian.AppendUint64
  function Uint64Bytes(n: nat): (s: seq<Byte>)
    ensures |s| == 8
  {
    ToBytes(n / WORD_RANGE % WORD_RANGE) + ToBytes(n % WORD_RANGE)
  }

  // 8-byte big-endian length followed by the data.
  function WithPrefix(data: seq<Byte>): seq<Byte> {
    Uint64Bytes(|data|) + data
  }

  function Fetch(oracle: Oracle, cache: PreimageCache, key: Hash): PreimageCache {
    if key == cache.key then cache else PreimageCache(key, WithPrefix(oracle(key)))
  }

  // How many bytes of the pre-image one read call delivers.
  function ReadLen(available: nat, a1: Word, a2: Word): (n: nat)
    ensures n <= available && a1 % 4 + n <= 4 && n <= a2
  {
    Min(Min(Min(available, 32), 4 - a1 % 4), a2)
  }

  function SyscallReturn(cpu: Cpu, v0: Word, v1: Word): Cpu {
    Advance(cpu.(regs := cpu.regs[2 := v0][7 := v1]))
  }

  // The memory word with n pre-image bytes put at the address a1.
  function PutBytes(word: Word, a1: Word, bs: seq<Byte>): Word
    requires a1 % 4 + |bs| <= 4
  {
    var o := a1 % 4;
    FromBytes(ToBytes(word)[..o] + bs + ToBytes(word)[o + |bs|..])
  }

  function PreimageRead(oracle: Oracle, cpu: Cpu, cache: PreimageCache, a1: Word, a2: Word, word: Word): Effect {
    var c := Fetch(oracle, cache, cpu.preimageKey);
    if cpu.preimageOffset > |c.data| then Fault
    else
      var n := ReadLen(|c.data| - cpu.preimageOffset, a1, a2);
      var bs := c.data[cpu.preimageOffset..cpu.preimageOffset + n];
      Next(SyscallReturn(cpu.(preimageOffset := Add(cpu.preimageOffset, n)), n, 0), c, Some(PutBytes(word, a1, bs)))
  }

  // Shift n bytes of the word at a1 into the key.
  function PreimageWrite(cpu: Cpu, a1: Word, a2: Word, word: Word): Cpu {
    var o := a1 % 4;
    var n := Min(a2, 4 - o);
    SyscallReturn(cpu.(preimageKey := cpu.preimageKey[n..] + ToBytes(word)[o..o + n], preimageOffset := 0), n, 0)
  }

  function Mmap(cpu: Cpu, a0: Word, a1: Word): Cpu {
    var sz := PageRoundUp(a1);
    if a0 == 0 then SyscallReturn(cpu.(heap := Add(cpu.heap, sz)), cpu.heap, 0)
    else SyscallReturn(cpu, a0, 0)
  }

  // Round a size up to whole pages, wrapping like a uint32.
  function PageRoundUp(sz: Word): Word {
    if sz % 4096 != 0 then Add(sz, 4096 - sz % 4096) else sz
  }

  function Fcntl(cpu: Cpu, a0: Word, a1: Word): Cpu {
    if a1 == 3 then
      if a0 in {FD_STDIN, FD_PREIMAGE_READ, FD_HINT_READ} then SyscallReturn(cpu, 0, 0)
      else if a0 in {FD_STDOUT, FD_STDERR, FD_PREIMAGE_WRITE, FD_HINT_WRITE} then SyscallReturn(cpu, 1, 0)
      else SyscallReturn(cpu, ALL_ONES, MIPS_EBADF)
    else SyscallReturn(cpu, ALL_ONES, MIPS_EINVAL)
  }

  function Read(oracle: Oracle, cpu: Cpu, cache: PreimageCache, word: Word): Effect {
    var a0, a1, a2 := cpu.regs[4], cpu.regs[5], cpu.regs[6];
    if a0 == FD_STDIN then Next(SyscallReturn(cpu, 0, 0), cache, None)
    else if a0 == FD_PREIMAGE_READ then PreimageRead(oracle, cpu, cache, a1, a2, word)
    else if a0 == FD_HINT_READ then Next(SyscallReturn(cpu, a2, 0), cache, None)
    else Next(SyscallReturn(cpu, ALL_ONES, MIPS_EBADF), cache, None)
  }

  function Write(cpu: Cpu, word: Word): Cpu {
    var a0, a1, a2 := cpu.regs[4], cpu.regs[5], cpu.regs[6];
    if a0 in {FD_STDOUT, FD_STDERR, FD_HINT_WRITE} then SyscallReturn(cpu, a2, 0)
    else if a0 == FD_PREIMAGE_WRITE then PreimageWrite(cpu, a1, a2, word)
    else SyscallReturn(cpu, ALL_ONES, MIPS_EBADF)
  }

  function Syscall(oracle: Oracle, cpu: Cpu, cache: PreimageCache, word: Word): Effect {
    var num, a0, a1 := cpu.regs[2], cpu.regs[4], cpu.regs[5];
    if num == SYS_MMAP then Next(Mmap(cpu, a0, a1), cache, None)
    else if num == SYS_BRK then Next(SyscallReturn(cpu, 0x4000_0000, 0), cache, None)
    else if num == SYS_CLONE then Next(SyscallReturn(cpu, 1, 0), cache, None)
    else if num == SYS_EXIT_GROUP then Next(cpu.(exited := true, exitCode := a0 % 256), cache, None)
    else if num == SYS_READ then Read(oracle, cpu, cache, word)
    else if num == SYS_WRITE then Next(Write(cpu, word), cache, None)
    else if num == SYS_FCNTL then Next(Fcntl(cpu, a0, a1), cache, None)
    else Next(SyscallReturn(cpu, 0, 0), cache, None)
  }

  // ----- One instruction -----

  function OfCpu(c: Option<Cpu>, cache: PreimageCache): Effect {
    if c.None? then Fault else Next(c.value, cache, None)
  }

  // The second operand of an instruction that is neither a jump nor a branch.
  function Operand(cpu: Cpu, insn: Word): Word {
    var opcode := Opcode(insn);
    if opcode == 0 || opcode == 0x1c then cpu.regs[RtReg(insn)]
    else if opcode < 0x20 then
      if opcode in {0xC, 0xD, 0xE} then Imm16(insn) else SE(Imm16(insn), 16)
    else if opcode >= 0x28 || opcode == 0x22 || opcode == 0x26 then cpu.regs[RtReg(insn)]
    else 0
  }

  function EffAddr(cpu: Cpu, insn: Word): Word {
    Add(cpu.regs[RsReg(insn)], SE(Imm16(insn), 16))
  }

  predicate IsStore(opcode: nat) {
    opcode >= 0x28 && opcode != 0x30
  }

  // Loads and stores.
  function MemOp(cpu: Cpu, cache: PreimageCache, insn: Word, word: Word): Effect {
    var opcode := Opcode(insn);
    var val := Execute(insn, EffAddr(cpu, insn), Operand(cpu, insn), word);
    if val.None? then Fault
    else if IsStore(opcode) then
      var c := if opcode == 0x38 then cpu.(regs := SetReg(cpu.regs, RtReg(insn), 1)) else cpu;
      Next(Advance(c), cache, Some(val.value))
    else Next(Rd(cpu, RtReg(insn), val.value), cache, None)
  }

  // Register and immediate instructions.
  function AluOp(oracle: Oracle, cpu: Cpu, cache: PreimageCache, insn: Word, word: Word): Effect {
    var opcode, fun := Opcode(insn), Funct(insn);
    var rs, rt := cpu.regs[RsReg(insn)], Operand(cpu, insn);
    var rd := if opcode == 0 || opcode == 0x1c then RdReg(insn) else RtReg(insn);
    var val := Execute(insn, rs, rt, 0);
    if val.None? then Fault
    else if opcode == 0 && 8 <= fun < 0x1c then
      if fun == 8 || fun == 9 then OfCpu(Jump(cpu, if fun == 9 then rd else 0, rs), cache) // jr, jalr
      else if fun == 0xa then Next(if rt == 0 then Rd(cpu, rd, rs) else Advance(cpu), cache, None) // movz
      else if fun == 0xb then Next(if rt != 0 then Rd(cpu, rd, rs) else Advance(cpu), cache, None) // movn
      else if fun == 0xc then Syscall(oracle, cpu, cache, word)
      else if fun >= 0x10 then OfCpu(HiLo(cpu, fun, rs, rt, rd), cache)
      else Next(Rd(cpu, rd, val.value), cache, None)
    else Next(Rd(cpu, rd, val.value), cache, None)
  }

  // The instruction applied to a processor whose step counter is already advanced.
  function Exec(oracle: Oracle, cpu: Cpu, cache: PreimageCache, insn: Word, word: Word): Effect {
    var opcode := Opcode(insn);
    if opcode == 2 then OfCpu(Jump(cpu, 0, JumpTarget(cpu, insn)), cache)
    else if opcode == 3 then OfCpu(Jump(cpu, 31, JumpTarget(cpu, insn)), cache)
    else if opcode == 1 || 4 <= opcode < 8 then OfCpu(Branch(cpu, insn), cache)
    else if opcode >= 0x20 then MemOp(cpu, cache, insn, word)
    else AluOp(oracle, cpu, cache, insn, word)
  }

  predicate ReadsPreimage(cpu: Cpu) {
    cpu.regs[2] == SYS_READ && cpu.regs[4] == FD_PREIMAGE_READ
  }

  predicate WritesPreimageKey(cpu: Cpu) {
    cpu.regs[2] == SYS_WRITE && cpu.regs[4] == FD_PREIMAGE_WRITE
  }

  predicate IsSyscall(insn: Word) {
    Opcode(insn) == 0 && Funct(insn) == 0xC
  }

  /** The only panic that depends on more than the words read: a write to an output stream, of a range that wraps
      into its own first page, when that page is allocated. */
  predicate PrintCallPanics(cpu: Cpu, pages: set<nat>) {
    && cpu.regs[2] == SYS_WRITE && cpu.regs[4] in {FD_STDOUT, FD_STDERR, FD_HINT_WRITE}
    && ReadPanics(pages, cpu.regs[5], cpu.regs[6])
  }

  predicate PrintPanics(cpu: Cpu, insn: Word, pages: set<nat>) {
    IsSyscall(insn) && PrintCallPanics(cpu, pages)
  }

  function SyscallAccess(cpu: Cpu): (a: Option<Word>)
    ensures a.Some? ==> Aligned(a.value)
  {
    if ReadsPreimage(cpu) || WritesPreimageKey(cpu) then Some(AlignDown(cpu.regs[5])) else None
  }

  // The one aligned data address an instruction touches.
  function AccessOf(cpu: Cpu, insn: Word): (a: Option<Word>)
    ensures a.Some? ==> Aligned(a.value)
  {
    if Opcode(insn) >= 0x20 then Some(AlignDown(EffAddr(cpu, insn)))
    else if IsSyscall(insn) then SyscallAccess(cpu)
    else None
  }

  // ----- The whole VM -----

  // Besides its contents, it matters of the memory which pages are allocated.
  datatype Vm = Vm(cpu: Cpu, cache: PreimageCache, mem: Flat, pages: set<nat>)

  function Ticked(cpu: Cpu): Cpu {
    cpu.(step := (cpu.step + 1) % UINT64_RANGE)
  }

  function FetchData(mem: Flat, access: Option<Word>): Word
    requires access.Some? ==> Aligned(access.value)
  {
    if access.Some? then WordAt(mem, access.value) else 0
  }

  function Store(mem: Flat, access: Option<Word>, store: Option<Word>): Flat
    requires access.Some? ==> Aligned(access.value)
  {
    if access.Some? && store.Some? then WithWord(mem, access.value, store.value) else mem
  }

  function StorePages(pages: set<nat>, access: Option<Word>, store: Option<Word>): set<nat> {
    if access.Some? && store.Some? then pages + {access.value / PAGE_SIZE} else pages
  }

  // One step; None is a Go panic.
  function StepVm(oracle: Oracle, vm: Vm): Option<Vm> {
    if vm.cpu.exited then Some(vm)
    else if !Aligned(vm.cpu.pc) then None
    else
      var insn := WordAt(vm.mem, vm.cpu.pc);
      var access := AccessOf(vm.cpu, insn);
      if PrintPanics(vm.cpu, insn, vm.pages) then None
      else
        match Exec(oracle, Ticked(vm.cpu), vm.cache, insn, FetchData(vm.mem, access))
        case Fault => None
        case Next(cpu, cache, store) =>
          Some(Vm(cpu, cache, Store(vm.mem, access, store), StorePages(vm.pages, access, store)))
  }

  // The data address the next step touches.
  function StepAccess(vm: Vm): (a: Option<Word>)
    ensures a.Some? ==> Aligned(a.value)
  {
    if vm.cpu.exited || !Aligned(vm.cpu.pc) then None
    else AccessOf(vm.cpu, WordAt(vm.mem, vm.cpu.pc))
  }

  predicate StepReadsPreimage(vm: Vm) {
    !vm.cpu.exited && Aligned(vm.cpu.pc)
    && IsSyscall(WordAt(vm.mem, vm.cpu.pc)) && ReadsPreimage(vm.cpu)
  }

  // A run of n steps.
  function RunVm(oracle: Oracle, vm: Vm, n: nat): Option<Vm> {
    if n == 0 then Some(vm)
    else
      var prev := RunVm(oracle, vm, n - 1);
      if prev.None? then None else StepVm(oracle, prev.value)
  }

  lemma {:induction false} PanicIsFinal(oracle: Oracle, vm: Vm, n: nat, m: nat)
    requires n <= m && RunVm(oracle, vm, n).None?
    ensures RunVm(oracle, vm, m).None?
    decreases m
  {
    hide StepVm;
    if n < m {
      PanicIsFinal(oracle, vm, n, m - 1);
    }
  }
}
