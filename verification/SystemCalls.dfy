/**
 Steps of the VM for system calls: for each call and file descriptor the values
 returned and everything else that changes; how and with which code a run exits.
 */
module SystemCalls {
  import opened Words
  import opened Merkle
  import opened Page
  import opened FlatMemory
  import opened MemoryRange
  import opened Alu
  import opened LoadStoreBytes
  import opened Cpu
  import opened VmRun
  import opened VmHistory
  import opened UnalignedSteps
  import opened Instructions
  import opened Wrappers

  // The next instruction is a system call, that is 0 in its upper 6 bits and 12 in its lower 6, with this number and
  // this first argument.
  predicate Calls(vm: Vm, num: Word, a0: Word) {
    && vm.cpu.regs[2] == num && vm.cpu.regs[4] == a0
    && NextInsn(vm).Some? && NextInsn(vm).value < 0x400_0000 && NextInsn(vm).value % 64 == 0xc
  }

  // The VM after a call that returns these two values.
  function Returned(vm: Vm, v0: Word, v1: Word): Vm {
    Retired(vm, vm.cpu.regs[2 := v0][7 := v1])
  }

  lemma CallIs(oracle: Oracle, vm: Vm, num: Word, a0: Word)
    requires Calls(vm, num, a0)
    ensures AtCall(vm)
    ensures var access := SyscallAccess(vm.cpu);
      StepVm(oracle, vm) ==
      if PrintCallPanics(vm.cpu, vm.pages) then None
      else
        match CallEffect(oracle, vm)
        case Fault => None
        case Next(cpu, cache, store) =>
          Some(Vm(cpu, cache, Store(vm.mem, access, store), StorePages(vm.pages, access, store)))
  {
    hide StepVm, CallEffect, Store, StorePages, SyscallAccess, PrintCallPanics;
    CallStep(oracle, vm);
  }

  // A call that neither reads nor writes memory.
  lemma QuietCall(oracle: Oracle, vm: Vm, num: Word, a0: Word, cpu: Cpu)
    requires Calls(vm, num, a0) && !(num == 4004 && a0 in {1, 2, 4, 6}) && !(num == 4003 && a0 == 5)
    requires Syscall(oracle, Ticked(vm.cpu), vm.cache, 0) == Next(cpu, vm.cache, None)
    ensures StepVm(oracle, vm) == Some(vm.(cpu := cpu))
  {
    hide StepVm, NextInsn, Syscall, ReadPanics;
    CallIs(oracle, vm, num, a0);
  }

  /** exit_group: the exit code is the low byte of the argument, and nothing but the step count changes besides. */
  lemma ExitCall(oracle: Oracle, vm: Vm, a0: Word)
    requires Calls(vm, 4246, a0)
    ensures StepVm(oracle, vm) == Some(vm.(cpu := vm.cpu.(
      exited := true, exitCode := a0 % 256, step := (vm.cpu.step + 1) % UINT64_RANGE)))
  {
    hide StepVm, NextInsn;
    QuietCall(oracle, vm, 4246, a0, Ticked(vm.cpu).(exited := true, exitCode := a0 % 256));
  }

  // The VM after it has handed out the whole pages for this size from the heap.
  function HeapTaken(vm: Vm, size: Word): Vm {
    var w := Returned(vm, vm.cpu.heap, 0);
    w.(cpu := w.cpu.(heap := (vm.cpu.heap + (size + 4095) / 4096 * 4096) % WORD_RANGE))
  }

  /** mmap: an address asked for is granted; otherwise the heap is, and moves up by the size in whole pages. */
  lemma MmapCall(oracle: Oracle, vm: Vm, a0: Word)
    requires Calls(vm, 4090, a0)
    ensures StepVm(oracle, vm) == Some(if a0 != 0 then Returned(vm, a0, 0) else HeapTaken(vm, vm.cpu.regs[5]))
  {
    hide StepVm, NextInsn, PageRoundUp;
    RoundedUp(vm.cpu.regs[5], vm.cpu.heap);
    QuietCall(oracle, vm, 4090, a0, Mmap(Ticked(vm.cpu), a0, vm.cpu.regs[5]));
  }

  lemma RoundedUp(a1: Word, heap: Word)
    ensures Add(heap, PageRoundUp(a1)) == (heap + (a1 + 4095) / 4096 * 4096) % WORD_RANGE
  {
    var q, r := a1 / 4096, a1 % 4096;
    assert a1 == 4096 * q + r && (a1 + 4095) / 4096 == if r == 0 then q else q + 1;
  }

  /** brk, clone, and the calls the kernel does not know. */
  lemma ConstantCall(oracle: Oracle, vm: Vm, num: Word, a0: Word)
    requires Calls(vm, num, a0) && num !in {4090, 4246, 4003, 4004, 4055}
    ensures StepVm(oracle, vm) ==
      Some(Returned(vm, if num == 4045 then 0x4000_0000 else if num == 4120 then 1 else 0, 0))
  {
    hide StepVm, NextInsn;
    QuietCall(oracle, vm, num, a0, Syscall(oracle, Ticked(vm.cpu), vm.cache, 0).cpu);
  }

  /** fcntl: command 3 tells whether a descriptor is read (0) or written (1); others are errors. */
  lemma FcntlCall(oracle: Oracle, vm: Vm, a0: Word)
    requires Calls(vm, 4055, a0)
    ensures StepVm(oracle, vm) == Some(
      if vm.cpu.regs[5] != 3 then Returned(vm, 0xffff_ffff, 0x16)
      else if a0 in {0, 3, 5} then Returned(vm, 0, 0)
      else if a0 in {1, 2, 4, 6} then Returned(vm, 1, 0)
      else Returned(vm, 0xffff_ffff, 9))
  {
    hide StepVm, NextInsn;
    QuietCall(oracle, vm, 4055, a0, Fcntl(Ticked(vm.cpu), a0, vm.cpu.regs[5]));
  }

  /** Reading anything but the pre-image: end of file on stdin, success on the hint channel, else a bad descriptor. */
  lemma ReadCall(oracle: Oracle, vm: Vm, a0: Word)
    requires Calls(vm, 4003, a0) && a0 != 5
    ensures StepVm(oracle, vm) == Some(
      if a0 == 0 then Returned(vm, 0, 0)
      else if a0 == 3 then Returned(vm, vm.cpu.regs[6], 0)
      else Returned(vm, 0xffff_ffff, 9))
  {
    hide StepVm, NextInsn, PreimageRead;
    QuietCall(oracle, vm, 4003, a0, Read(oracle, Ticked(vm.cpu), vm.cache, 0).cpu);
  }

  // The pre-image the next read call sees, after its length in eight big-endian bytes.
  function Readable(oracle: Oracle, vm: Vm): seq<Byte> {
    if vm.cpu.preimageKey == vm.cache.key then vm.cache.data
    else
      var data := oracle(vm.cpu.preimageKey);
      BigEndian(|data|) + data
  }

  // A number in eight big-endian bytes.
  function BigEndian(n: nat): (s: seq<Byte>)
    ensures |s| == 8
  {
    [n / 0x100_0000_0000_0000 % 256, n / 0x1_0000_0000_0000 % 256, n / 0x100_0000_0000 % 256, n / 0x1_0000_0000 % 256,
     n / 0x100_0000 % 256, n / 0x1_0000 % 256, n / 256 % 256, n % 256]
  }

  lemma BytesOfRest(x: nat)
    ensures ToBytes(x % WORD_RANGE) == [x / 0x100_0000 % 256, x / 0x1_0000 % 256, x / 256 % 256, x % 256]
  {
    var m, q := x % WORD_RANGE, x / WORD_RANGE;
    assert x == q * WORD_RANGE + m;
    DivideTwice(m);
    RestBytes(q, m);
  }

  lemma RestBytes(q: nat, m: Word)
    ensures var x := q * WORD_RANGE + m;
      && x % 256 == m % 256 && x / 256 % 256 == m / 256 % 256
      && x / 0x1_0000 % 256 == m / 0x1_0000 % 256 && x / 0x100_0000 % 256 == m / 0x100_0000
  {
    RestQuotients(q, m);
    RestOfSum(q * 0x100_0000, m);
    RestOfSum(q * 0x1_0000, m / 256);
    RestOfSum(q * 256, m / 0x1_0000);
    RestOfSum(q, m / 0x100_0000);
  }

  lemma RestQuotients(q: nat, m: Word)
    ensures var x := q * WORD_RANGE + m;
      && x / 256 == q * 0x100_0000 + m / 256
      && x / 0x1_0000 == q * 0x1_0000 + m / 0x1_0000
      && x / 0x100_0000 == q * 256 + m / 0x100_0000
  {
  }

  lemma RestOfSum(k: nat, m: nat)
    ensures (k * 256 + m) % 256 == m % 256
  {
  }

  lemma UpperBytes(n: nat)
    ensures var h := n / WORD_RANGE;
      && h / 0x100_0000 == n / 0x100_0000_0000_0000 && h / 0x1_0000 == n / 0x1_0000_0000_0000
      && h / 256 == n / 0x100_0000_0000
  {
  }

  lemma PrefixIs(n: nat)
    ensures Uint64Bytes(n) == BigEndian(n)
  {
    hide ToBytes;
    BytesOfRest(n / WORD_RANGE);
    BytesOfRest(n);
    UpperBytes(n);
  }

  /** Reading the pre-image: the next bytes, to the end of the memory word, of the count asked for or of the pre-image,
      whichever comes first, are put at the address given; it panics if the offset is past the end. */
  lemma PreimageReadCall(oracle: Oracle, vm: Vm)
    requires Calls(vm, 4003, 5)
    ensures var p, o, a1 := Readable(oracle, vm), vm.cpu.preimageOffset, vm.cpu.regs[5];
      if o > |p| then StepVm(oracle, vm).None?
      else
        var n := Min(Min(|p| - o, 4 - a1 % 4), vm.cpu.regs[6]);
        var w := Returned(vm, n, 0);
        && a1 + n <= WORD_RANGE
        && StepVm(oracle, vm) == Some(Vm(
             w.cpu.(preimageOffset := (o + n) % WORD_RANGE), PreimageCache(vm.cpu.preimageKey, p),
             Patched(vm.mem, a1, p[o..o + n]), vm.pages + {a1 / 4096}))
  {
    hide StepVm, NextInsn, Patched, BigEndian, ReadLen, WithWord, WordAt, Fetch, PutBytes, Uint64Bytes;
    var p, o, a1 := Readable(oracle, vm), vm.cpu.preimageOffset, vm.cpu.regs[5];
    CallIs(oracle, vm, 4003, 5);
    ReadableIs(oracle, vm);
    if o <= |p| {
      var n := ReadLen(|p| - o, a1, vm.cpu.regs[6]);
      assert n == Min(Min(|p| - o, 4 - a1 % 4), vm.cpu.regs[6]) by { ReadLenIs(|p| - o, a1, vm.cpu.regs[6]); }
      PutPatches(vm.mem, a1, p[o..o + n]);
    }
  }

  lemma ReadLenIs(available: nat, a1: Word, a2: Word)
    ensures ReadLen(available, a1, a2) == Min(Min(available, 4 - a1 % 4), a2)
  {
  }

  lemma ReadableIs(oracle: Oracle, vm: Vm)
    ensures Fetch(oracle, vm.cache, vm.cpu.preimageKey) == PreimageCache(vm.cpu.preimageKey, Readable(oracle, vm))
  {
    hide BigEndian, Uint64Bytes;
    PrefixIs(|oracle(vm.cpu.preimageKey)|);
  }

  lemma PutPatches(mem: Flat, a1: Word, bs: seq<Byte>)
    requires a1 % 4 + |bs| <= 4
    ensures a1 + |bs| <= WORD_RANGE
    ensures var a := AlignDown(a1);
      WithWord(mem, a, PutBytes(WordAt(mem, a), a1, bs)) == Patched(mem, a1, bs) && a / PAGE_SIZE == a1 / 4096
  {
    hide ToBytes, FromBytes, WordAt, Patched, AlignDown;
    WordPlace(a1);
    var a, o := AlignDown(a1), a1 % 4;
    WordBytesAt(mem, a1);
    var w := mem[a..a + 4];
    BytesRoundTrip(w[..o] + bs + w[o + |bs|..]);
    PatchInside(mem, a, o, bs);
  }

  lemma WordPlace(a1: Word)
    ensures var a := AlignDown(a1); a1 == a + a1 % 4 && a + 4 <= WORD_RANGE && a / PAGE_SIZE == a1 / 4096
  {
  }

  lemma PatchInside(mem: seq<Byte>, a: nat, o: nat, bs: seq<Byte>)
    requires a + 4 <= |mem| && o + |bs| <= 4
    ensures var w := mem[a..a + 4]; mem[..a] + (w[..o] + bs + w[o + |bs|..]) + mem[a + 4..] == Patched(mem, a + o, bs)
  {
    assert mem[..a] + mem[a..a + 4][..o] == mem[..a + o];
    assert mem[a..a + 4][o + |bs|..] + mem[a + 4..] == mem[a + o + |bs|..];
  }

  /** Writing the pre-image key: the bytes at the address given, to the end of the memory word or of the count, are
      shifted in from the right, and the next read starts at the beginning. */
  lemma KeyWriteCall(oracle: Oracle, vm: Vm)
    requires Calls(vm, 4004, 6)
    ensures var a1, n := vm.cpu.regs[5], Min(vm.cpu.regs[6], 4 - vm.cpu.regs[5] % 4);
      var w := Returned(vm, n, 0);
      && a1 + n <= WORD_RANGE
      && StepVm(oracle, vm) == Some(w.(cpu := w.cpu.(
           preimageKey := vm.cpu.preimageKey[n..] + vm.mem[a1..a1 + n], preimageOffset := 0)))
  {
    hide StepVm, NextInsn, WordAt, ToBytes;
    CallIs(oracle, vm, 4004, 6);
    WordSlice(vm.mem, vm.cpu.regs[5], Min(vm.cpu.regs[6], 4 - vm.cpu.regs[5] % 4));
  }

  /** Writing to stdout, stderr or the hint channel: all of it is said to be written.  It panics if and only if the
      range runs past the end of memory and back into the page it starts in, and that page is allocated. */
  lemma OutputCall(oracle: Oracle, vm: Vm, a0: Word)
    requires Calls(vm, 4004, a0) && a0 in {1, 2, 4}
    ensures var start, end: int := vm.cpu.regs[5], vm.cpu.regs[5] + vm.cpu.regs[6] - WORD_RANGE;
      StepVm(oracle, vm) ==
        if end >= 0 && end / 4096 == start / 4096 && start / 4096 in vm.pages then None
        else Some(Returned(vm, vm.cpu.regs[6], 0))
  {
    hide StepVm, NextInsn;
    CallIs(oracle, vm, 4004, a0);
  }

  /** Writing to any other descriptor is an error. */
  lemma BadWriteCall(oracle: Oracle, vm: Vm, a0: Word)
    requires Calls(vm, 4004, a0) && a0 !in {1, 2, 4, 6}
    ensures StepVm(oracle, vm) == Some(Returned(vm, 0xffff_ffff, 9))
  {
    hide StepVm, NextInsn;
    QuietCall(oracle, vm, 4004, a0, Write(Ticked(vm.cpu), 0));
  }

  // ----- How a run exits -----

  lemma CallsNow(vm: Vm)
    requires AtCall(vm)
    ensures Calls(vm, vm.cpu.regs[2], vm.cpu.regs[4])
  {
  }

  /** A step that exits is exit_group, and the exit code is the low byte of its argument. */
  lemma ExitsOnlySo(oracle: Oracle, vm: Vm, v: Vm)
    requires StepVm(oracle, vm) == Some(v) && !vm.cpu.exited && v.cpu.exited
    ensures Calls(vm, 4246, vm.cpu.regs[4]) && v.cpu.exitCode == vm.cpu.regs[4] % 256
  {
    hide StepVm, AtCall, Calls, FetchData, Store, StorePages, SyscallAccess, PrintCallPanics, Mmap, Fcntl, PreimageRead,
         PreimageWrite;
    if AtCall(vm) {
      CallStep(oracle, vm);
      CallsNow(vm);
      var cpu := Ticked(vm.cpu);
      CallKeepsRunning(oracle, cpu, vm.cache, FetchData(vm.mem, SyscallAccess(vm.cpu)));
    } else {
      OtherStep(oracle, vm, v);
    }
  }

  lemma CallKeepsRunning(oracle: Oracle, cpu: Cpu, cache: PreimageCache, word: Word)
    ensures var r := Syscall(oracle, cpu, cache, word);
      r.Next? && cpu.regs[2] != 4246 ==> r.cpu.exited == cpu.exited
  {
    hide Fetch, PutBytes, ReadLen, ToBytes;
  }

  /** A run that has exited did so in a call of exit_group, and still has the code given there. */
  lemma {:induction false} RunExits(oracle: Oracle, vm: Vm, n: nat) returns (k: nat)
    requires !vm.cpu.exited && RunVm(oracle, vm, n).Some? && RunVm(oracle, vm, n).value.cpu.exited
    ensures k < n && RunVm(oracle, vm, k).Some?
    ensures var at := RunVm(oracle, vm, k).value;
      && !at.cpu.exited && Calls(at, 4246, at.cpu.regs[4])
      && RunVm(oracle, vm, n).value.cpu.exitCode == at.cpu.regs[4] % 256
  {
    hide StepVm, Calls;
    var prev := RunVm(oracle, vm, n - 1).value;
    if prev.cpu.exited {
      k := RunExits(oracle, vm, n - 1);
      StepOrderly(oracle, prev);
    } else {
      k := n - 1;
      ExitsOnlySo(oracle, prev, RunVm(oracle, vm, n).value);
    }
  }
}
