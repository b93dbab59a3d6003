/**
 Properties of runs that speak about everything that happened so far: the
 regions handed out by mmap, and the streams of pre-image keys and data.
 */
module VmHistory {
  import opened Words
  import opened Merkle
  import opened FlatMemory
  import opened MemoryRange
  import opened Alu
  import opened Cpu
  import opened VmRun
  import opened Wrappers

  // A run: each state is the step of the one before.
  ghost predicate IsRun(oracle: Oracle, t: seq<Vm>) {
    |t| > 0 && forall k :: 0 <= k < |t| - 1 ==> StepVm(oracle, t[k]) == Some(t[k + 1])
  }

  // The instruction about to be run, if any.
  function NextInsn(vm: Vm): Option<Word> {
    if vm.cpu.exited || !Aligned(vm.cpu.pc) then None else Some(WordAt(vm.mem, vm.cpu.pc))
  }

  lemma SyscallExec(oracle: Oracle, cpu: Cpu, cache: PreimageCache, insn: Word, word: Word)
    requires IsSyscall(insn)
    ensures Exec(oracle, cpu, cache, insn, word) == Syscall(oracle, cpu, cache, word)
  {
    hide Syscall, Operand;
    assert Execute(insn, cpu.regs[RsReg(insn)], Operand(cpu, insn), 0).Some?;
  }

  // What only system calls touch.
  predicate SameKernel(a: Cpu, b: Cpu) {
    && a.heap == b.heap && a.preimageKey == b.preimageKey && a.preimageOffset == b.preimageOffset
    && a.exited == b.exited && a.exitCode == b.exitCode
  }

  lemma OtherExec(oracle: Oracle, cpu: Cpu, cache: PreimageCache, insn: Word, word: Word)
    requires !IsSyscall(insn) && Exec(oracle, cpu, cache, insn, word).Next?
    ensures var r := Exec(oracle, cpu, cache, insn, word); SameKernel(cpu, r.cpu) && r.cache == cache
  {
    hide Execute, SE, Shl, ShouldBranch, JumpTarget, Operand, EffAddr, Quot, Rem, Signed, Trunc, Syscall;
  }

  // What the system call the next step makes does.
  function CallEffect(oracle: Oracle, vm: Vm): Effect {
    Syscall(oracle, Ticked(vm.cpu), vm.cache, FetchData(vm.mem, SyscallAccess(vm.cpu)))
  }

  predicate AtCall(vm: Vm) {
    NextInsn(vm).Some? && IsSyscall(NextInsn(vm).value)
  }

  predicate AtSyscall(vm: Vm, num: nat) {
    AtCall(vm) && vm.cpu.regs[2] == num
  }

  lemma CallStep(oracle: Oracle, vm: Vm)
    requires AtCall(vm)
    ensures var access := SyscallAccess(vm.cpu);
      StepVm(oracle, vm) ==
      if PrintCallPanics(vm.cpu, vm.pages) then None
      else
        match CallEffect(oracle, vm)
        case Fault => None
        case Next(cpu, cache, store) =>
          Some(Vm(cpu, cache, Store(vm.mem, access, store), StorePages(vm.pages, access, store)))
  {
    hide Syscall, Exec, FetchData, Store, StorePages, SyscallAccess, PrintCallPanics;
    SyscallExec(oracle, Ticked(vm.cpu), vm.cache, NextInsn(vm).value, FetchData(vm.mem, SyscallAccess(vm.cpu)));
  }

  lemma OtherStep(oracle: Oracle, vm: Vm, v: Vm)
    requires StepVm(oracle, vm) == Some(v) && !AtCall(vm)
    ensures SameKernel(vm.cpu, v.cpu) && v.cache == vm.cache
  {
    hide Exec, FetchData, Store, StorePages, AccessOf, IsSyscall, PrintPanics;
    if NextInsn(vm).Some? {
      var insn := NextInsn(vm).value;
      OtherExec(oracle, Ticked(vm.cpu), vm.cache, insn, FetchData(vm.mem, AccessOf(vm.cpu, insn)));
    }
  }

  // ----- Regions handed out by mmap -----

  // Whole pages covering a1 bytes, without wrap-around.
  function WholePages(a1: Word): nat {
    (a1 + 4095) / 4096 * 4096
  }

  predicate AtMmap(vm: Vm) {
    AtSyscall(vm, SYS_MMAP) && vm.cpu.regs[4] == 0
  }

  // The heap has room for what the next step asks for.
  predicate HeapRoom(vm: Vm) {
    AtMmap(vm) ==> vm.cpu.heap + WholePages(vm.cpu.regs[5]) < WORD_RANGE
  }

  lemma RoundsUpExactly(a1: Word)
    requires WholePages(a1) < WORD_RANGE
    ensures PageRoundUp(a1) == WholePages(a1)
  {
    var q, r := a1 / 4096, a1 % 4096;
    assert a1 == 4096 * q + r;
  }

  // An anonymous mmap returns the heap and moves it up by the region; nothing else moves the heap.
  lemma MmapStep(oracle: Oracle, vm: Vm, v: Vm)
    requires StepVm(oracle, vm) == Some(v) && HeapRoom(vm)
    ensures AtMmap(vm) ==> v.cpu.regs[2] == vm.cpu.heap && v.cpu.heap == vm.cpu.heap + WholePages(vm.cpu.regs[5])
    ensures !AtMmap(vm) ==> v.cpu.heap == vm.cpu.heap
  {
    hide StepVm, PageRoundUp, WholePages, FetchData, Store, StorePages, SyscallAccess, Read, Write, AtCall, PrintCallPanics;
    if AtCall(vm) {
      CallStep(oracle, vm);
      if AtMmap(vm) {
        RoundsUpExactly(vm.cpu.regs[5]);
      } else {
        QuietReads(oracle, Ticked(vm.cpu), vm.cache, FetchData(vm.mem, SyscallAccess(vm.cpu)));
      }
    } else {
      OtherStep(oracle, vm, v);
    }
  }

  lemma QuietReads(oracle: Oracle, cpu: Cpu, cache: PreimageCache, word: Word)
    ensures Read(oracle, cpu, cache, word).Next? ==> Read(oracle, cpu, cache, word).cpu.heap == cpu.heap
    ensures Write(cpu, word).heap == cpu.heap
  {
    hide Fetch, PutBytes, ReadLen, ToBytes;
  }

  lemma {:induction false} HeapMonotone(oracle: Oracle, t: seq<Vm>, i: nat, j: nat)
    requires IsRun(oracle, t) && i <= j < |t| && forall k :: i <= k < j ==> HeapRoom(t[k])
    ensures t[i].cpu.heap <= t[j].cpu.heap
    decreases j
  {
    hide StepVm, HeapRoom, AtMmap;
    if i < j {
      HeapMonotone(oracle, t, i, j - 1);
      MmapStep(oracle, t[j - 1], t[j]);
    }
  }

  /** Regions handed out by two different mmap calls of one run do not overlap, as long as the heap has
      room for every request. */
  lemma MmapRegionsDisjoint(oracle: Oracle, t: seq<Vm>, i: nat, j: nat)
    requires IsRun(oracle, t) && i < j < |t| - 1 && forall k :: 0 <= k < |t| ==> HeapRoom(t[k])
    requires AtMmap(t[i]) && AtMmap(t[j])
    ensures t[i + 1].cpu.regs[2] + WholePages(t[i].cpu.regs[5]) <= t[j + 1].cpu.regs[2]
  {
    hide StepVm, HeapRoom, AtMmap, WholePages;
    MmapStep(oracle, t[i], t[i + 1]);
    MmapStep(oracle, t[j], t[j + 1]);
    HeapMonotone(oracle, t, i + 1, j);
  }

  // ----- The stream of key writes -----

  predicate AtKeyWrite(vm: Vm) {
    AtSyscall(vm, SYS_WRITE) && vm.cpu.regs[4] == FD_PREIMAGE_WRITE
  }

  predicate AtPreimageRead(vm: Vm) {
    AtSyscall(vm, SYS_READ) && vm.cpu.regs[4] == FD_PREIMAGE_READ
  }

  // The bytes of the program's buffer that the next step shifts into the key: at most to the end of the word.
  function KeyBytes(vm: Vm): seq<Byte> {
    if AtKeyWrite(vm) then
      var a1 := vm.cpu.regs[5];
      var n := Min(vm.cpu.regs[6], 4 - a1 % 4);
      WordFits(a1);
      vm.mem[a1..a1 + n]
    else []
  }

  lemma WordFits(a1: Word)
    ensures a1 + (4 - a1 % 4) <= WORD_RANGE
  {
  }

  // All bytes shifted into the key by the steps of a run.
  function KeyStream(t: seq<Vm>): seq<Byte> {
    if |t| <= 1 then [] else KeyStream(t[..|t| - 1]) + KeyBytes(t[|t| - 2])
  }

  lemma WordSlice(mem: Flat, a1: Word, n: nat)
    requires a1 % 4 + n <= 4
    ensures a1 + n <= WORD_RANGE
    ensures ToBytes(WordAt(mem, AlignDown(a1)))[a1 % 4..a1 % 4 + n] == mem[a1..a1 + n]
  {
    hide FromBytes, ToBytes;
    var a := AlignDown(a1);
    BytesRoundTrip(mem[a..a + 4]);
    SliceOfSlice(mem, a, 4, a1 % 4, n);
  }

  lemma KeyWriteStep(oracle: Oracle, vm: Vm, v: Vm)
    requires StepVm(oracle, vm) == Some(v) && AtKeyWrite(vm)
    ensures |KeyBytes(vm)| <= 4 && v.cpu.preimageKey == vm.cpu.preimageKey[|KeyBytes(vm)|..] + KeyBytes(vm)
    ensures v.cpu.preimageOffset == 0 && v.cache == vm.cache
  {
    hide StepVm, Store, WordAt, AtCall, ToBytes;
    CallStep(oracle, vm);
    WordSlice(vm.mem, vm.cpu.regs[5], |KeyBytes(vm)|);
  }

  // A step that neither writes the key nor reads the pre-image leaves both alone.
  lemma QuietStep(oracle: Oracle, vm: Vm, v: Vm)
    requires StepVm(oracle, vm) == Some(v) && !AtKeyWrite(vm) && !AtPreimageRead(vm)
    ensures v.cpu.preimageKey == vm.cpu.preimageKey && v.cpu.preimageOffset == vm.cpu.preimageOffset
    ensures v.cache == vm.cache
  {
    hide StepVm, FetchData, Store, StorePages, SyscallAccess, AtCall, Mmap, Fcntl, ReadPanics;
    if AtCall(vm) {
      CallStep(oracle, vm);
      KernelKeepsKey(Ticked(vm.cpu));
    } else {
      OtherStep(oracle, vm, v);
    }
  }

  lemma KernelKeepsKey(cpu: Cpu)
    ensures forall a0: Word, a1: Word ::
      Mmap(cpu, a0, a1).preimageKey == cpu.preimageKey && Mmap(cpu, a0, a1).preimageOffset == cpu.preimageOffset
    ensures forall a0: Word, a1: Word ::
      Fcntl(cpu, a0, a1).preimageKey == cpu.preimageKey && Fcntl(cpu, a0, a1).preimageOffset == cpu.preimageOffset
  {
  }

  function Last32(s: seq<Byte>): seq<Byte>
    requires |s| >= 32
  {
    s[|s| - 32..]
  }

  lemma RunFront(oracle: Oracle, t: seq<Vm>)
    requires IsRun(oracle, t) && |t| > 1
    ensures IsRun(oracle, t[..|t| - 1]) && StepVm(oracle, t[|t| - 2]) == Some(t[|t| - 1])
  {
    hide StepVm;
    assert StepVm(oracle, t[|t| - 2]) == Some(t[(|t| - 2) + 1]);
  }

  lemma KeyStep(oracle: Oracle, vm: Vm, v: Vm)
    requires StepVm(oracle, vm) == Some(v)
    ensures |KeyBytes(vm)| <= 4 && v.cpu.preimageKey == vm.cpu.preimageKey[|KeyBytes(vm)|..] + KeyBytes(vm)
  {
    hide StepVm, AtSyscall;
    if AtKeyWrite(vm) {
      KeyWriteStep(oracle, vm, v);
    } else if AtPreimageRead(vm) {
      ReadStep(oracle, vm);
    } else {
      QuietStep(oracle, vm, v);
    }
  }

  /** The key is the last 32 bytes of everything ever written to the key descriptor, the initial key
      standing in for what is missing. */
  lemma {:induction false} KeyIsStreamTail(oracle: Oracle, t: seq<Vm>)
    requires IsRun(oracle, t)
    ensures t[|t| - 1].cpu.preimageKey == Last32(t[0].cpu.preimageKey + KeyStream(t))
    decreases |t|
  {
    hide StepVm, KeyBytes;
    var key := t[0].cpu.preimageKey;
    if |t| == 1 {
      assert key + KeyStream(t) == key;
    } else {
      var prev, front := t[|t| - 2], t[..|t| - 1];
      RunFront(oracle, t);
      KeyIsStreamTail(oracle, front);
      KeyStep(oracle, prev, t[|t| - 1]);
      var before, after := key + KeyStream(front), key + KeyStream(t);
      assert after == before + KeyBytes(prev);
      assert Last32(after) == Last32(before)[|KeyBytes(prev)|..] + KeyBytes(prev);
    }
  }

  // ----- The stream of pre-image data -----

  // The bytes a read call has left in the program's buffer: as many as it says it read.
  function DeliveredBytes(vm: Vm, v: Vm): seq<Byte> {
    var a1, n: int := vm.cpu.regs[5], v.cpu.regs[2];
    if AtPreimageRead(vm) && a1 + n <= WORD_RANGE then v.mem[a1..a1 + n] else []
  }

  // All bytes delivered by the steps of a run since the key was last written.
  function DataStream(t: seq<Vm>): seq<Byte> {
    if |t| <= 1 then []
    else if AtKeyWrite(t[|t| - 2]) then []
    else DataStream(t[..|t| - 1]) + DeliveredBytes(t[|t| - 2], t[|t| - 1])
  }

  // No pre-image has been fetched yet.
  predicate Fresh(cache: PreimageCache) {
    cache == PreimageCache(Zeros(32), [])
  }

  predicate CacheOk(oracle: Oracle, cache: PreimageCache) {
    Fresh(cache) || cache.data == WithPrefix(oracle(cache.key))
  }

  /** The cache is transparent for every key but the zero key before the first fetch, which it takes for
      one already fetched. */
  lemma FetchExactly(oracle: Oracle, cache: PreimageCache, key: Hash)
    requires CacheOk(oracle, cache)
    ensures CacheOk(oracle, Fetch(oracle, cache, key))
    ensures Fetch(oracle, cache, key).data == WithPrefix(oracle(key)) <==> !(Fresh(cache) && key == Zeros(32))
    ensures Fetch(oracle, Fetch(oracle, cache, key), key) == Fetch(oracle, cache, key)
  {
  }

  // The pre-image the next read call sees.
  function Stream(oracle: Oracle, vm: Vm): seq<Byte> {
    Fetch(oracle, vm.cache, vm.cpu.preimageKey).data
  }

  // How many bytes the next read call takes from it.
  function ReadSize(oracle: Oracle, vm: Vm): nat
    requires vm.cpu.preimageOffset <= |Stream(oracle, vm)|
  {
    ReadLen(|Stream(oracle, vm)| - vm.cpu.preimageOffset, vm.cpu.regs[5], vm.cpu.regs[6])
  }

  // A read call panics exactly when the offset is out of range; else it moves the offset and fills the cache.
  lemma ReadStep(oracle: Oracle, vm: Vm)
    requires AtPreimageRead(vm)
    ensures StepVm(oracle, vm).Some? <==> vm.cpu.preimageOffset <= |Stream(oracle, vm)|
    ensures StepVm(oracle, vm).Some? ==>
      var v := StepVm(oracle, vm).value;
      && v.cpu.preimageKey == vm.cpu.preimageKey
      && v.cpu.preimageOffset == Add(vm.cpu.preimageOffset, ReadSize(oracle, vm))
      && v.cpu.regs[2] == ReadSize(oracle, vm)
      && v.cache == Fetch(oracle, vm.cache, vm.cpu.preimageKey)
  {
    hide StepVm, Store, WordAt, AtCall, Fetch, ReadLen, PutBytes;
    CallStep(oracle, vm);
  }

  lemma PutThenSlice(mem: Flat, a1: Word, bs: seq<Byte>)
    requires a1 % 4 + |bs| <= 4
    ensures var a := AlignDown(a1);
      a1 + |bs| <= WORD_RANGE && WithWord(mem, a, PutBytes(WordAt(mem, a), a1, bs))[a1..a1 + |bs|] == bs
  {
    hide ToBytes, FromBytes;
    var a, o := AlignDown(a1), a1 % 4;
    var old4 := ToBytes(WordAt(mem, a));
    var new4 := old4[..o] + bs + old4[o + |bs|..];
    BytesRoundTrip(new4);
    var mem' := WithWord(mem, a, PutBytes(WordAt(mem, a), a1, bs));
    assert mem' == mem[..a] + new4 + mem[a + 4..];
    assert a1 == a + o;
    assert mem'[a1..a1 + |bs|] == new4[o..o + |bs|];
  }

  // The bytes a read call delivers are the next ones of the pre-image.
  lemma ReadDelivers(oracle: Oracle, vm: Vm, v: Vm)
    requires AtPreimageRead(vm) && StepVm(oracle, vm) == Some(v)
    ensures vm.cpu.preimageOffset <= |Stream(oracle, vm)|
    ensures var o, n: int := vm.cpu.preimageOffset, ReadSize(oracle, vm);
      DeliveredBytes(vm, v) == Stream(oracle, vm)[o..o + n]
  {
    hide StepVm, WithWord, WordAt, AtCall, Fetch, ReadLen, PutBytes;
    ReadStep(oracle, vm);
    CallStep(oracle, vm);
    var o, n: int := vm.cpu.preimageOffset, ReadSize(oracle, vm);
    PutThenSlice(vm.mem, vm.cpu.regs[5], Stream(oracle, vm)[o..o + n]);
  }

  // Pre-images short enough for the 32-bit offset to reach their end.
  ghost predicate Addressable(oracle: Oracle) {
    forall k: Hash :: |WithPrefix(oracle(k))| < WORD_RANGE
  }

  // The program has been given the first preimageOffset bytes of the pre-image of the current key.
  predicate InStep(oracle: Oracle, vm: Vm, stream: seq<Byte>) {
    var p := WithPrefix(oracle(vm.cpu.preimageKey));
    && CacheOk(oracle, vm.cache)
    && vm.cpu.preimageOffset <= |p| && stream == p[..vm.cpu.preimageOffset]
    && (Fresh(vm.cache) && vm.cpu.preimageKey == Zeros(32) ==> vm.cpu.preimageOffset == 0)
  }

  lemma InStepStep(oracle: Oracle, vm: Vm, v: Vm, stream: seq<Byte>)
    requires Addressable(oracle) && StepVm(oracle, vm) == Some(v) && InStep(oracle, vm, stream)
    ensures InStep(oracle, v, if AtKeyWrite(vm) then [] else stream + DeliveredBytes(vm, v))
  {
    hide StepVm, AtSyscall, WithPrefix, Fetch, Stream, DeliveredBytes, ReadLen, Zeros;
    if AtKeyWrite(vm) {
      KeyWriteStep(oracle, vm, v);
    } else if AtPreimageRead(vm) {
      ReadStep(oracle, vm);
      ReadDelivers(oracle, vm, v);
      ReadKeepsInStep(oracle, vm, v, stream);
    } else {
      QuietStep(oracle, vm, v);
      NothingDelivered(vm, v);
      assert stream + [] == stream;
    }
  }

  lemma NothingDelivered(vm: Vm, v: Vm)
    requires !AtPreimageRead(vm)
    ensures DeliveredBytes(vm, v) == []
  {
  }

  lemma ReadKeepsInStep(oracle: Oracle, vm: Vm, v: Vm, stream: seq<Byte>)
    requires Addressable(oracle) && InStep(oracle, vm, stream) && vm.cpu.preimageOffset <= |Stream(oracle, vm)|
    requires v.cpu.preimageKey == vm.cpu.preimageKey && v.cache == Fetch(oracle, vm.cache, vm.cpu.preimageKey)
    requires v.cpu.preimageOffset == Add(vm.cpu.preimageOffset, ReadSize(oracle, vm))
    requires var o, n: int := vm.cpu.preimageOffset, ReadSize(oracle, vm);
      DeliveredBytes(vm, v) == Stream(oracle, vm)[o..o + n]
    ensures InStep(oracle, v, stream + DeliveredBytes(vm, v))
  {
    hide DeliveredBytes, ReadLen, WithPrefix, Zeros;
    var key := vm.cpu.preimageKey;
    FetchExactly(oracle, vm.cache, key);
    var p := WithPrefix(oracle(key));
    var o, n: int := vm.cpu.preimageOffset, ReadSize(oracle, vm);
    if Fresh(vm.cache) && key == Zeros(32) {
      assert n == 0;
      assert stream + [] == stream;
    } else {
      assert p[..o] + p[o..o + n] == p[..o + n];
    }
  }

  /** Over any mix of short and misaligned reads and key writes: the bytes delivered since the key was last
      written are the first preimageOffset bytes of the length prefix and data of the current key. */
  lemma {:induction false} DataIsPrefix(oracle: Oracle, t: seq<Vm>)
    requires IsRun(oracle, t) && Addressable(oracle)
    requires t[0].cpu.preimageOffset == 0 && CacheOk(oracle, t[0].cache)
    ensures InStep(oracle, t[|t| - 1], DataStream(t))
    decreases |t|
  {
    hide StepVm, DeliveredBytes, AtKeyWrite, CacheOk, WithPrefix, Addressable;
    if |t| > 1 {
      RunFront(oracle, t);
      DataIsPrefix(oracle, t[..|t| - 1]);
      InStepStep(oracle, t[|t| - 2], t[|t| - 1], DataStream(t[..|t| - 1]));
    }
  }

  /** Reading the pre-image never panics: the offset stays inside the bytes fetched. */
  lemma ReadsNeverPanic(oracle: Oracle, t: seq<Vm>)
    requires IsRun(oracle, t) && Addressable(oracle)
    requires t[0].cpu.preimageOffset == 0 && CacheOk(oracle, t[0].cache)
    requires AtPreimageRead(t[|t| - 1])
    ensures StepVm(oracle, t[|t| - 1]).Some?
  {
    hide StepVm, AtPreimageRead, WithPrefix, Addressable, Zeros;
    var vm := t[|t| - 1];
    DataIsPrefix(oracle, t);
    FetchExactly(oracle, vm.cache, vm.cpu.preimageKey);
    ReadStep(oracle, vm);
  }
}
