/**
 The VM as the code runs it: mutable state, the instrumented step, and the
 inclusion proofs it records on the way.  Every method is tied to the value-level
 step of module Cpu.
 */
module Instrumented {
  import opened Words
  import opened Merkle
  import opened Page
  import opened FlatMemory
  import opened InclusionProof
  import opened MemoryRange
  import opened VmMemory
  import opened Alu
  import opened Cpu
  import opened Witness
  import opened Wrappers

  class State {
    const memory: Memory
    const registers: array<Word>
    var preimageKey: Hash
    var preimageOffset: Word  // counts the length prefix too
    var pc: Word
    var nextPC: Word
    var lo: Word
    var hi: Word
    var heap: Word
    var exitCode: Byte
    var exited: bool
    var step: Uint64

    constructor (memory: Memory, registers: array<Word>, pc: Word)
      ensures this.memory == memory && this.registers == registers && this.pc == pc && nextPC == Add(pc, 4)
      ensures lo == 0 && hi == 0 && heap == 0x2000_0000 && exitCode == 0 && !exited && step == 0
      ensures preimageKey == Zeros(32) && preimageOffset == 0
    {
      this.memory, this.registers := memory, registers;
      preimageKey, preimageOffset := Zeros(32), 0;
      this.pc, nextPC := pc, Add(pc, 4);
      lo, hi, heap := 0, 0, 0x2000_0000;
      exitCode, exited, step := 0, false, 0;
    }

    // The processor part of the state, as a value.
    ghost function Abs(): Cpu
      requires registers.Length == 32
      reads this, registers
    {
      Cpu(pc, nextPC, lo, hi, heap, registers[..], preimageKey, preimageOffset, exitCode, exited, step)
    }

    ghost predicate Valid()
      reads this, memory, memory.owner.Keys
    {
      registers.Length == 32 && memory.Valid()
      && memory !in memory.owner && this !in memory.owner && registers !in memory.owner
    }

    /** The byte encoding of the state, with the memory root in place of the memory. */
    method EncodeWitness() returns (out: seq<Byte>)
      requires Valid()
      modifies memory`nodes, memory`dirty, memory.owner.Keys
      ensures Valid() && out == Encode(Root(memory.hash, memory.mem), Abs())
    {
      hide Memory.Valid, Memory.Loose, ToBytes, Uint64Bytes, RegBytes;
      var memRoot := memory.MerkleRoot();
      out := memRoot;
      out := out + preimageKey;
      out := out + ToBytes(preimageOffset);
      out := out + ToBytes(pc);
      out := out + ToBytes(nextPC);
      out := out + ToBytes(lo);
      out := out + ToBytes(hi);
      out := out + ToBytes(heap);
      out := out + [exitCode];
      if exited {
        out := out + [1];
      } else {
        out := out + [0];
      }
      out := out + Uint64Bytes(step);
      ghost var header := out;
      assert out == Header(memRoot, Abs());
      assert RegBytes(registers[..0]) == [] by { NoRegBytes(registers[..0]); }
      for i := 0 to 32
        invariant Valid() && registers.Length == 32
        invariant out == header + RegBytes(registers[..i])
      {
        NextRegBytes(registers[..], i);
        out := out + ToBytes(registers[i]);
      }
      assert registers[..32] == registers[..];
    }
  }

  class InstrumentedState {
    const state: State
    const oracle: Oracle
    var lastMemAccess: Word
    var memProofEnabled: bool
    var memProof: seq<Byte>
    var lastPreimage: seq<Byte>
    var lastPreimageKey: Hash
    var lastPreimageOffset: Word

    constructor (state: State, oracle: Oracle)
      ensures this.state == state && this.oracle == oracle
      ensures lastPreimage == [] && lastPreimageKey == Zeros(32)
    {
      this.state, this.oracle := state, oracle;
      lastMemAccess, memProofEnabled, memProof := 0, false, Zeros(28 * 32);
      lastPreimage, lastPreimageKey, lastPreimageOffset := [], Zeros(32), 0;
    }

    ghost predicate Valid()
      reads this, state, state.memory, state.memory.owner.Keys
    {
      state.Valid() && this !in state.memory.owner
    }

    ghost function Cache(): PreimageCache
      reads this
    {
      PreimageCache(lastPreimageKey, lastPreimage)
    }

    ghost function Abs(): Vm
      requires state.registers.Length == 32
      reads this, state, state.registers, state.memory
    {
      Vm(state.Abs(), Cache(), state.memory.mem, state.memory.pages.Keys)
    }

    // ----- Control transfer -----

    method HandleJump(linkReg: nat, dest: Word) returns (ok: bool)
      requires state.registers.Length == 32 && linkReg < 32
      modifies state`pc, state`nextPC, state.registers
      ensures var r := Jump(old(state.Abs()), linkReg, dest); ok == r.Some? && (ok ==> state.Abs() == r.value)
    {
      if state.nextPC != Add(state.pc, 4) {
        return false; // panics: no jump may follow a jump
      }
      var prevPC := state.pc;
      state.pc := state.nextPC;
      state.nextPC := dest;
      if linkReg != 0 {
        state.registers[linkReg] := Add(prevPC, 8);
      }
      return true;
    }

    method HandleBranch(insn: Word, rtReg: nat, rs: Word) returns (ok: bool)
      requires state.registers.Length == 32 && rtReg == RtReg(insn) && rs == state.registers[RsReg(insn)]
      requires Opcode(insn) == 1 || 4 <= Opcode(insn) < 8
      modifies state`pc, state`nextPC
      ensures var r := Branch(old(state.Abs()), insn); ok == r.Some? && (ok ==> state.Abs() == r.value)
    {
      hide SE, Shl;
      if state.nextPC != Add(state.pc, 4) {
        return false; // panics: no branch may follow a jump
      }
      var opcode := Opcode(insn);
      var shouldBranch := false;
      if opcode == 4 || opcode == 5 {
        var rt := state.registers[rtReg];
        shouldBranch := (rs == rt && opcode == 4) || (rs != rt && opcode == 5);
      } else if opcode == 6 {
        shouldBranch := Signed(rs) <= 0;
      } else if opcode == 7 {
        shouldBranch := Signed(rs) > 0;
      } else if opcode == 1 {
        if rtReg == 0 {
          shouldBranch := Signed(rs) < 0;
        }
        if rtReg == 1 {
          shouldBranch := Signed(rs) >= 0;
        }
      }
      var prevPC := state.pc;
      state.pc := state.nextPC; // the instruction after the branch always runs
      if shouldBranch {
        state.nextPC := Add(Add(prevPC, 4), Shl(SE(Imm16(insn), 16), 2));
      } else {
        state.nextPC := Add(state.nextPC, 4);
      }
      return true;
    }

    // ----- Registers -----

    method HandleRd(storeReg: nat, val: Word, conditional: bool)
      requires state.registers.Length == 32 && storeReg < 32
      modifies state`pc, state`nextPC, state.registers
      ensures state.Abs() == if conditional then Rd(old(state.Abs()), storeReg, val) else Advance(old(state.Abs()))
    {
      if storeReg != 0 && conditional {
        state.registers[storeReg] := val;
      }
      state.pc := state.nextPC;
      state.nextPC := Add(state.nextPC, 4);
    }

    method HandleHiLo(fun: nat, rs: Word, rt: Word, storeReg: nat) returns (ok: bool)
      requires state.registers.Length == 32 && storeReg < 32
      modifies state`pc, state`nextPC, state`hi, state`lo, state.registers
      ensures var r := HiLo(old(state.Abs()), fun, rs, rt, storeReg);
        ok == r.Some? && (ok ==> state.Abs() == r.value)
    {
      hide Quot, Rem, Trunc, Signed;
      var val := 0;
      if fun == 0x10 {
        val := state.hi;
      } else if fun == 0x11 {
        state.hi := rs;
      } else if fun == 0x12 {
        val := state.lo;
      } else if fun == 0x13 {
        state.lo := rs;
      } else if fun == 0x18 {
        var acc := Signed(rs) * Signed(rt);
        state.hi := Trunc(acc / WORD_RANGE);
        state.lo := Trunc(acc);
      } else if fun == 0x19 {
        var acc := rs * rt;
        state.hi := Trunc(acc / WORD_RANGE);
        state.lo := Trunc(acc);
      } else if fun == 0x1a {
        if rt == 0 {
          return false; // integer divide by zero
        }
        SignedZero(rt);
        state.hi := Trunc(Rem(Signed(rs), Signed(rt)));
        state.lo := Trunc(Quot(Signed(rs), Signed(rt)));
      } else if fun == 0x1b {
        if rt == 0 {
          return false; // integer divide by zero
        }
        state.hi := rs % rt;
        state.lo := rs / rt;
      }
      if storeReg != 0 {
        state.registers[storeReg] := val;
      }
      state.pc := state.nextPC;
      state.nextPC := Add(state.nextPC, 4);
      return true;
    }

    // ----- Memory access and pre-images -----

    // The proof kept for a step is that of the memory as it was before the step.
    ghost predicate Tracked(access: Word, mem: Flat)
      reads `memProofEnabled, `lastMemAccess, `memProof
    {
      memProofEnabled ==>
        lastMemAccess == access && memProof == Concat(ProofOf(state.memory.hash, mem, access))
    }

    /** Record the proof of a data address.  A second, different address in one step is a panic in the
        original; here that branch is shown to be unreachable from every caller. */
    method TrackMemAccess(effAddr: Word)
      requires Valid() && Aligned(effAddr)
      requires lastMemAccess == NO_ACCESS || Tracked(effAddr, state.memory.mem)
      modifies `lastMemAccess, `memProof, state.memory`nodes, state.memory`dirty, state.memory.owner.Keys
      ensures Valid() && Tracked(effAddr, state.memory.mem)
    {
      hide Memory.Valid, Memory.Loose, ProofOf, Concat;
      if memProofEnabled && lastMemAccess != effAddr {
        if lastMemAccess != NO_ACCESS {
          assert false; // the panic of the original
        }
        lastMemAccess := effAddr;
        memProof := state.memory.MerkleProof(effAddr);
      }
    }

    // Record the proof of a data address and read it.
    method FetchWord(effAddr: Word) returns (mem: Word)
      requires Valid() && Aligned(effAddr) && lastMemAccess == NO_ACCESS
      modifies `lastMemAccess, `memProof, state.memory, state.memory.owner.Keys
      ensures Valid() && Tracked(effAddr, state.memory.mem)
      ensures state.memory.mem == old(state.memory.mem) && state.memory.owner == old(state.memory.owner)
      ensures state.memory.pages == old(state.memory.pages)
      ensures mem == WordAt(state.memory.mem, effAddr)
    {
      hide Memory.Valid, Memory.Loose, ProofOf, Concat, WordAt;
      TrackMemAccess(effAddr);
      state.memory.ValidIsLoose();
      mem := state.memory.GetMemory(effAddr);
    }

    // Write a data address that has been read.
    method StoreWord(effAddr: Word, v: Word)
      requires Valid() && Aligned(effAddr) && Tracked(effAddr, state.memory.mem)
      modifies `lastMemAccess, `memProof, state.memory, state.memory.owner.Keys
      ensures Valid() && Tracked(effAddr, old(state.memory.mem))
      ensures fresh(state.memory.owner.Keys - old(state.memory.owner.Keys))
      ensures state.memory.mem == WithWord(old(state.memory.mem), effAddr, v)
      ensures state.memory.pages.Keys == old(state.memory.pages.Keys) + {effAddr / PAGE_SIZE}
    {
      hide Memory.Valid, Memory.Loose, ProofOf, Concat, WithWord;
      TrackMemAccess(effAddr);
      state.memory.ValidIsLoose();
      state.memory.SetMemory(effAddr, v);
    }

    /** Up to 32 bytes of the pre-image from an offset on; fails where slicing would panic. */
    method ReadPreimage(key: Hash, offset: Word) returns (ok: bool, dat: seq<Byte>)
      modifies `lastPreimage, `lastPreimageKey, `lastPreimageOffset
      ensures Cache() == Fetch(oracle, old(Cache()), key) && lastPreimageOffset == offset
      ensures ok <==> offset <= |Cache().data|
      ensures ok ==> var n := Min(32, |Cache().data| - offset); dat == Cache().data[offset..offset + n]
    {
      if key != lastPreimageKey {
        lastPreimageKey := key;
        var data := oracle(key);
        lastPreimage := Uint64Bytes(|data|) + data;
      }
      lastPreimageOffset := offset;
      if offset > |lastPreimage| {
        return false, [];
      }
      return true, lastPreimage[offset..offset + Min(32, |lastPreimage| - offset)];
    }

    // ----- System calls -----

    method SysMmap(a0: Word, a1: Word) returns (v0: Word)
      requires state.registers.Length == 32
      modifies state`heap
      ensures SyscallReturn(state.Abs(), v0, 0) == Mmap(old(state.Abs()), a0, a1)
    {
      var sz := a1;
      if sz % 4096 != 0 { // round up to whole pages
        sz := Add(sz, 4096 - sz % 4096);
      }
      if a0 == 0 {
        v0 := state.heap;
        state.heap := Add(state.heap, sz);
      } else {
        v0 := a0;
      }
    }

    // Put as many of the bytes in the word at a1 as fit and as the call asks for.
    method MergePreimage(mem: Word, dat: seq<Byte>, a1: Word, a2: Word) returns (word: Word, datLen: nat)
      ensures datLen == Min(Min(|dat|, 4 - a1 % 4), a2) && word == PutBytes(mem, a1, dat[..datLen])
    {
      hide ToBytes, FromBytes;
      var alignment := a1 % 4;
      var space := 4 - alignment;
      datLen := |dat|;
      if space < datLen {
        datLen := space;
      }
      if a2 < datLen {
        datLen := a2;
      }
      var outMem := ToBytes(mem);
      outMem := outMem[..alignment] + dat[..datLen] + outMem[alignment + datLen..];
      word := FromBytes(outMem);
    }

    method SysPreimageRead(a1: Word, a2: Word) returns (ok: bool, v0: Word)
      requires Valid() && lastMemAccess == NO_ACCESS
      modifies this, state`preimageOffset, state.memory, state.memory.owner.Keys
      ensures memProofEnabled == old(memProofEnabled)
      ensures lastPreimageOffset == old(state.preimageOffset)
      ensures var word := WordAt(old(state.memory.mem), AlignDown(a1));
        var r := PreimageRead(oracle, old(state.Abs()), old(Cache()), a1, a2, word);
        ok == r.Next? && (ok ==>
          && Valid() && fresh(state.memory.owner.Keys - old(state.memory.owner.Keys))
          && r == Next(SyscallReturn(state.Abs(), v0, 0), Cache(), r.store) && r.store.Some?
          && state.memory.mem == WithWord(old(state.memory.mem), AlignDown(a1), r.store.value)
          && state.memory.pages.Keys == old(state.memory.pages.Keys) + {AlignDown(a1) / PAGE_SIZE}
          && Tracked(AlignDown(a1), old(state.memory.mem)))
    {
      hide Memory.Valid, Memory.Loose, Tracked, WithWord, WordAt, Fetch, SyscallReturn, PutBytes, ReadLen;
      var effAddr := AlignDown(a1);
      var mem := FetchWord(effAddr);
      var dat;
      ok, dat := ReadPreimage(state.preimageKey, state.preimageOffset);
      if !ok {
        return false, 0;
      }
      PreimageChunk(lastPreimage, state.preimageOffset, a1, a2);
      var word, datLen := MergePreimage(mem, dat, a1, a2);
      state.memory.ValidIsLoose();
      state.memory.SetMemory(effAddr, word);
      state.preimageOffset := Add(state.preimageOffset, datLen);
      v0 := datLen;
    }

    method SysPreimageWrite(a1: Word, a2: Word) returns (v0: Word)
      requires Valid() && lastMemAccess == NO_ACCESS
      modifies this, state`preimageOffset, state`preimageKey, state.memory, state.memory.owner.Keys
      ensures memProofEnabled == old(memProofEnabled) && Cache() == old(Cache())
      ensures lastPreimageOffset == old(lastPreimageOffset)
      ensures Valid() && state.memory.owner == old(state.memory.owner) && state.memory.mem == old(state.memory.mem)
      ensures state.memory.pages == old(state.memory.pages)
      ensures Tracked(AlignDown(a1), state.memory.mem)
      ensures SyscallReturn(state.Abs(), v0, 0)
           == PreimageWrite(old(state.Abs()), a1, a2, WordAt(state.memory.mem, AlignDown(a1)))
    {
      hide Memory.Valid, Memory.Loose, Tracked, WordAt, ToBytes;
      var effAddr := AlignDown(a1);
      var mem := FetchWord(effAddr);
      var alignment := a1 % 4;
      var space := 4 - alignment;
      var n := a2;
      if space < n {
        n := space;
      }
      var tmp := ToBytes(mem);
      state.preimageKey := state.preimageKey[n..] + tmp[alignment..alignment + n];
      state.preimageOffset := 0;
      v0 := n;
    }

    method SysFcntl(a0: Word, a1: Word) returns (v0: Word, v1: Word)
      requires state.registers.Length == 32
      ensures SyscallReturn(state.Abs(), v0, v1) == Fcntl(state.Abs(), a0, a1)
    {
      if a1 == 3 { // the access mode of the descriptor
        if a0 == FD_STDIN || a0 == FD_PREIMAGE_READ || a0 == FD_HINT_READ {
          return 0, 0; // may be read
        } else if a0 == FD_STDOUT || a0 == FD_STDERR || a0 == FD_PREIMAGE_WRITE || a0 == FD_HINT_WRITE {
          return 1, 0; // may be written
        } else {
          return ALL_ONES, MIPS_EBADF;
        }
      } else {
        return ALL_ONES, MIPS_EINVAL; // any other command
      }
    }

    // What a step leaves behind besides the processor state.
    ghost predicate Recorded(access: Option<Word>, mem: Flat, wasAccess: Word, wasProof: seq<Byte>)
      reads `memProofEnabled, `lastMemAccess, `memProof
    {
      if access.Some? then Tracked(access.value, mem)
      else lastMemAccess == wasAccess && memProof == wasProof
    }

    method SysRead(a0: Word, a1: Word, a2: Word) returns (ok: bool, v0: Word, v1: Word)
      requires Valid() && lastMemAccess == NO_ACCESS && state.registers[2] == SYS_READ
      requires a0 == state.registers[4] && a1 == state.registers[5] && a2 == state.registers[6]
      modifies this, state`preimageOffset, state.memory, state.memory.owner.Keys
      ensures memProofEnabled == old(memProofEnabled)
      ensures lastPreimageOffset == if a0 == FD_PREIMAGE_READ then old(state.preimageOffset) else old(lastPreimageOffset)
      ensures var cpu, access := old(state.Abs()), SyscallAccess(old(state.Abs()));
        var r := Read(oracle, cpu, old(Cache()), FetchData(old(state.memory.mem), access));
        ok == r.Next? && (ok ==>
          && Valid() && fresh(state.memory.owner.Keys - old(state.memory.owner.Keys))
          && r == Next(SyscallReturn(state.Abs(), v0, v1), Cache(), r.store)
          && state.memory.mem == Store(old(state.memory.mem), access, r.store)
          && state.memory.pages.Keys == StorePages(old(state.memory.pages.Keys), access, r.store)
          && Recorded(access, old(state.memory.mem), NO_ACCESS, old(memProof)))
    {
      hide Memory.Valid, Memory.Loose, Tracked, WithWord, WordAt, PreimageRead, SyscallReturn;
      v0, v1, ok := 0, 0, true;
      if a0 == FD_STDIN {
        // end of file at once
      } else if a0 == FD_PREIMAGE_READ {
        ok, v0 := SysPreimageRead(a1, a2);
      } else if a0 == FD_HINT_READ {
        // claims to have read everything and touches no memory
        v0 := a2;
      } else {
        v0 := ALL_ONES;
        v1 := MIPS_EBADF;
      }
    }

    method SysWrite(a0: Word, a1: Word, a2: Word) returns (ok: bool, v0: Word, v1: Word)
      requires Valid() && lastMemAccess == NO_ACCESS && state.registers[2] == SYS_WRITE
      requires a0 == state.registers[4] && a1 == state.registers[5] && a2 == state.registers[6]
      modifies this, state`preimageOffset, state`preimageKey, state.memory, state.memory.owner.Keys
      ensures memProofEnabled == old(memProofEnabled) && lastPreimageOffset == old(lastPreimageOffset)
      ensures var cpu, access := old(state.Abs()), SyscallAccess(old(state.Abs()));
        ok == !PrintCallPanics(cpu, old(state.memory.pages.Keys)) && (ok ==>
          && Valid() && state.memory.owner == old(state.memory.owner)
          && SyscallReturn(state.Abs(), v0, v1) == Write(cpu, FetchData(old(state.memory.mem), access))
          && Cache() == old(Cache())
          && state.memory.mem == old(state.memory.mem) && state.memory.pages == old(state.memory.pages)
          && Recorded(access, old(state.memory.mem), NO_ACCESS, old(memProof)))
    {
      hide Memory.Valid, Memory.Loose, Tracked, WithWord, WordAt, PreimageWrite, SyscallReturn, ReadPanics;
      v0, v1, ok := 0, 0, true;
      if a0 == FD_STDOUT || a0 == FD_STDERR || a0 == FD_HINT_WRITE {
        // the bytes go to a stream or to the hint buffer, which are not modelled; the buffers make no difference to ok
        var bytes;
        state.memory.ValidIsLoose();
        ok, bytes := ReadRange(state.memory, a1, a2, i => 32768);
        v0 := a2;
      } else if a0 == FD_PREIMAGE_WRITE {
        v0 := SysPreimageWrite(a1, a2);
      } else {
        v0 := ALL_ONES;
        v1 := MIPS_EBADF;
      }
    }

    method FinishSyscall(v0: Word, v1: Word)
      requires state.registers.Length == 32
      modifies state`pc, state`nextPC, state.registers
      ensures state.Abs() == SyscallReturn(old(state.Abs()), v0, v1)
    {
      state.registers[2] := v0;
      state.registers[7] := v1;
      state.pc := state.nextPC;
      state.nextPC := Add(state.nextPC, 4);
    }

    method HandleSyscall() returns (ok: bool)
      requires Valid() && lastMemAccess == NO_ACCESS
      modifies this, state, state.registers, state.memory, state.memory.owner.Keys
      ensures memProofEnabled == old(memProofEnabled)
      ensures lastPreimageOffset
           == if ReadsPreimage(old(state.Abs())) then old(state.preimageOffset) else old(lastPreimageOffset)
      ensures var cpu, access := old(state.Abs()), SyscallAccess(old(state.Abs()));
        var r := Syscall(oracle, cpu, old(Cache()), FetchData(old(state.memory.mem), access));
        ok == (r.Next? && !PrintCallPanics(cpu, old(state.memory.pages.Keys))) && (ok ==>
          && Valid() && fresh(state.memory.owner.Keys - old(state.memory.owner.Keys))
          && r == Next(state.Abs(), Cache(), r.store)
          && state.memory.mem == Store(old(state.memory.mem), access, r.store)
          && state.memory.pages.Keys == StorePages(old(state.memory.pages.Keys), access, r.store)
          && Recorded(access, old(state.memory.mem), NO_ACCESS, old(memProof)))
    {
      hide Memory.Valid, Memory.Loose, Tracked, WithWord, WordAt, Read, Write, Fcntl, Mmap, SyscallReturn;
      var syscallNum := state.registers[2]; // v0
      var v0, v1 := 0, 0;
      var a0, a1, a2 := state.registers[4], state.registers[5], state.registers[6];
      if syscallNum == SYS_MMAP {
        v0 := SysMmap(a0, a1);
      } else if syscallNum == SYS_BRK {
        v0 := 0x4000_0000;
      } else if syscallNum == SYS_CLONE { // there is only one thread
        v0 := 1;
      } else if syscallNum == SYS_EXIT_GROUP {
        state.exited := true;
        state.exitCode := a0 % 256;
        return true;
      } else if syscallNum == SYS_READ {
        ok, v0, v1 := SysRead(a0, a1, a2);
        if !ok {
          return false;
        }
      } else if syscallNum == SYS_WRITE {
        ok, v0, v1 := SysWrite(a0, a1, a2);
        if !ok {
          return false;
        }
      } else if syscallNum == SYS_FCNTL {
        v0, v1 := SysFcntl(a0, a1);
      }
      FinishSyscall(v0, v1);
      return true;
    }

    // ----- One step -----

    // The part of a step for loads and stores.
    method MemStep(insn: Word) returns (ok: bool)
      requires Valid() && lastMemAccess == NO_ACCESS && Opcode(insn) >= 0x20
      modifies this, state`pc, state`nextPC, state.registers, state.memory, state.memory.owner.Keys
      ensures memProofEnabled == old(memProofEnabled) && lastPreimageOffset == old(lastPreimageOffset)
      ensures var addr := AlignDown(EffAddr(old(state.Abs()), insn));
        var r := MemOp(old(state.Abs()), old(Cache()), insn, WordAt(old(state.memory.mem), addr));
        ok == r.Next? && (ok ==>
          && Valid() && fresh(state.memory.owner.Keys - old(state.memory.owner.Keys))
          && r == Next(state.Abs(), Cache(), r.store)
          && state.memory.mem == Store(old(state.memory.mem), Some(addr), r.store)
          && state.memory.pages.Keys == StorePages(old(state.memory.pages.Keys), Some(addr), r.store)
          && Tracked(addr, old(state.memory.mem)))
    {
      hide Memory.Valid, Memory.Loose, Tracked, WithWord, WordAt, Execute, SE;
      var opcode, rtReg := Opcode(insn), RtReg(insn);
      var rdReg := rtReg;
      var rt := 0;
      if opcode >= 0x28 || opcode == 0x22 || opcode == 0x26 {
        rt := state.registers[rtReg];
      }
      var storeAddr := ALL_ONES;
      // base register plus signed offset
      var rs := Add(state.registers[RsReg(insn)], SE(Imm16(insn), 16));
      var addr := AlignDown(rs);
      var mem := FetchWord(addr);
      if opcode >= 0x28 && opcode != 0x30 {
        storeAddr := addr;
        rdReg := 0; // a store leaves the registers alone
      }
      var val := RunAlu(insn, rs, rt, mem);
      if val.None? {
        return false; // panics: no such instruction
      }
      // sc writes a 1 to rt
      if opcode == 0x38 && rtReg != 0 {
        state.registers[rtReg] := 1;
      }
      if storeAddr != ALL_ONES {
        StoreWord(storeAddr, val.value);
      }
      HandleRd(rdReg, val.value, true);
      return true;
    }

    // The part of a step for register and immediate instructions.
    method AluStep(insn: Word) returns (ok: bool)
      requires Valid() && lastMemAccess == NO_ACCESS
      requires Opcode(insn) < 0x20 && Opcode(insn) !in {1, 2, 3, 4, 5, 6, 7}
      modifies this, state, state.registers, state.memory, state.memory.owner.Keys
      ensures memProofEnabled == old(memProofEnabled)
      ensures ok ==> lastPreimageOffset == if IsSyscall(insn) && ReadsPreimage(old(state.Abs()))
          then old(state.preimageOffset) else old(lastPreimageOffset)
      ensures var cpu, access := old(state.Abs()), AccessOf(old(state.Abs()), insn);
        var r := AluOp(oracle, cpu, old(Cache()), insn, FetchData(old(state.memory.mem), access));
        ok == (r.Next? && !PrintPanics(cpu, insn, old(state.memory.pages.Keys))) && (ok ==>
          && Valid() && fresh(state.memory.owner.Keys - old(state.memory.owner.Keys))
          && r == Next(state.Abs(), Cache(), r.store)
          && state.memory.mem == Store(old(state.memory.mem), access, r.store)
          && state.memory.pages.Keys == StorePages(old(state.memory.pages.Keys), access, r.store)
          && Recorded(access, old(state.memory.mem), NO_ACCESS, old(memProof)))
    {
      hide Memory.Valid, Memory.Loose, Tracked, WithWord, WordAt, Execute, SE, Syscall, HiLo, Rd, Jump, SyscallAccess,
           ReadsPreimage;
      var opcode, fun, rtReg := Opcode(insn), Funct(insn), RtReg(insn);
      var rs, rt, rdReg := state.registers[RsReg(insn)], 0, rtReg;
      if opcode == 0 || opcode == 0x1c {
        // three registers, the result goes to rd
        rt := state.registers[rtReg];
        rdReg := RdReg(insn);
      } else if opcode == 0xC || opcode == 0xD || opcode == 0xE {
        rt := Imm16(insn); // logical immediates are unsigned
      } else {
        rt := SE(Imm16(insn), 16);
      }
      var val := RunAlu(insn, rs, rt, 0);
      if val.None? {
        return false; // panics: no such instruction
      }
      if opcode == 0 && fun >= 8 && fun < 0x1c {
        if fun == 8 || fun == 9 { // jr/jalr
          ok := HandleJump(if fun == 9 then rdReg else 0, rs);
          return;
        }
        if fun == 0xa { // movz
          HandleRd(rdReg, rs, rt == 0);
          return true;
        }
        if fun == 0xb { // movn
          HandleRd(rdReg, rs, rt != 0);
          return true;
        }
        if fun == 0xC {
          ok := HandleSyscall();
          return;
        }
        if fun >= 0x10 {
          ok := HandleHiLo(fun, rs, rt, rdReg);
          return;
        }
      }
      HandleRd(rdReg, val.value, true);
      return true;
    }

    // The step after the instruction has been fetched.
    method RunInsn(insn: Word) returns (ok: bool)
      requires Valid() && lastMemAccess == NO_ACCESS
      modifies this, state, state.registers, state.memory, state.memory.owner.Keys
      ensures memProofEnabled == old(memProofEnabled)
      ensures ok ==> lastPreimageOffset == if IsSyscall(insn) && ReadsPreimage(old(state.Abs()))
          then old(state.preimageOffset) else old(lastPreimageOffset)
      ensures var cpu, access := old(state.Abs()), AccessOf(old(state.Abs()), insn);
        var r := Exec(oracle, cpu, old(Cache()), insn, FetchData(old(state.memory.mem), access));
        ok == (r.Next? && !PrintPanics(cpu, insn, old(state.memory.pages.Keys))) && (ok ==>
          && Valid() && fresh(state.memory.owner.Keys - old(state.memory.owner.Keys))
          && r == Next(state.Abs(), Cache(), r.store)
          && state.memory.mem == Store(old(state.memory.mem), access, r.store)
          && state.memory.pages.Keys == StorePages(old(state.memory.pages.Keys), access, r.store)
          && Recorded(access, old(state.memory.mem), NO_ACCESS, old(memProof)))
    {
      hide Memory.Valid, Memory.Loose, Tracked, WithWord, WordAt, MemOp, AluOp, Jump, Branch, EffAddr, SyscallAccess,
           ReadsPreimage;
      var opcode := Opcode(insn);
      if opcode == 2 || opcode == 3 {
        var linkReg := 0;
        if opcode == 3 {
          linkReg := 31;
        }
        // a word index within the 256 MB region of the delay slot
        var target := state.nextPC - state.nextPC % 0x1000_0000 + insn % 0x400_0000 * 4;
        ok := HandleJump(linkReg, target);
      } else if (opcode >= 4 && opcode < 8) || opcode == 1 {
        ok := HandleBranch(insn, RtReg(insn), state.registers[RsReg(insn)]);
      } else if opcode >= 0x20 {
        ok := MemStep(insn);
      } else {
        ok := AluStep(insn);
      }
    }

    /** One step of the machine, unless it has exited. */
    method MipsStep() returns (ok: bool)
      requires Valid() && lastMemAccess == NO_ACCESS
      modifies this, state, state.registers, state.memory, state.memory.owner.Keys
      ensures memProofEnabled == old(memProofEnabled)
      ensures ok ==> lastPreimageOffset == if StepReadsPreimage(old(Abs()))
          then old(state.preimageOffset) else old(lastPreimageOffset)
      ensures var r := StepVm(oracle, old(Abs())); ok == r.Some? && (ok ==>
        && Valid() && fresh(state.memory.owner.Keys - old(state.memory.owner.Keys))
        && Abs() == r.value
        && Recorded(StepAccess(old(Abs())), old(state.memory.mem), NO_ACCESS, old(memProof)))
    {
      hide Memory.Valid, Memory.Loose, Tracked, WordAt, Exec, Store, FetchData, AccessOf, IsSyscall, ReadsPreimage;
      if state.exited {
        return true;
      }
      if state.pc % 4 != 0 {
        return false; // panics in the fetch
      }
      state.step := (state.step + 1) % UINT64_RANGE;
      state.memory.ValidIsLoose();
      var insn := state.memory.GetMemory(state.pc);
      AccessWhenTicked(old(state.Abs()), insn);
      ok := RunInsn(insn);
    }

    /** Run one instruction, with proofs of what it read on request. */
    method Step(proof: bool) returns (ok: bool, wit: Option<StepWitness>)
      requires Valid()
      modifies this, state, state.registers, state.memory, state.memory.owner.Keys
      ensures var r := StepVm(oracle, old(Abs())); ok == r.Some? && (ok ==>
        && Valid() && fresh(state.memory.owner.Keys - old(state.memory.owner.Keys))
        && Abs() == r.value)
      ensures wit == if ok && proof then Some(WitnessOf(state.memory.hash, old(Abs()), Abs(), old(memProof))) else None
    {
      hide Memory.Valid, Memory.Loose, StepVm, ProofOf, Concat, Encode, StepAccess, StepReadsPreimage;
      memProofEnabled := proof;
      lastMemAccess := NO_ACCESS;
      lastPreimageOffset := NO_ACCESS;
      var insnProof, encoded := [], [];
      if proof {
        insnProof := state.memory.MerkleProof(state.pc);
        encoded := state.EncodeWitness();
      }
      ok := MipsStep();
      if ok && proof {
        var preimage := None;
        if lastPreimageOffset != NO_ACCESS {
          preimage := Some((lastPreimageKey, lastPreimage, lastPreimageOffset));
        }
        wit := Some(StepWitness(encoded, insnProof + memProof, preimage));
      } else {
        wit := None;
      }
    }

    /** Run a number of steps, asking for proofs at some of them.  Which ones makes no difference to
        where the machine ends up, or to whether it panics. */
    method Run(proofAt: seq<bool>) returns (ok: bool)
      requires Valid()
      modifies this, state, state.registers, state.memory, state.memory.owner.Keys
      ensures var r := RunVm(oracle, old(Abs()), |proofAt|); ok == r.Some? && (ok ==>
        && Valid() && fresh(state.memory.owner.Keys - old(state.memory.owner.Keys))
        && Abs() == r.value)
    {
      hide Memory.Valid, Memory.Loose, StepVm, Encode, ProofOf, Concat, StepAccess, StepReadsPreimage;
      var n := 0;
      while n < |proofAt|
        invariant n <= |proofAt| && Valid() && fresh(state.memory.owner.Keys - old(state.memory.owner.Keys))
        invariant RunVm(oracle, old(Abs()), n) == Some(Abs())
      {
        var stepped, wit := Step(proofAt[n]);
        n := n + 1;
        if !stepped {
          PanicIsFinal(oracle, old(Abs()), n, |proofAt|);
          return false;
        }
      }
      return true;
    }
  }

  lemma NoRegBytes(regs: seq<Word>)
    requires regs == []
    ensures RegBytes(regs) == []
  {
  }

  lemma NextRegBytes(regs: seq<Word>, i: nat)
    requires i < |regs|
    ensures RegBytes(regs[..i + 1]) == RegBytes(regs[..i]) + ToBytes(regs[i])
  {
    assert regs[..i + 1][..i] == regs[..i];
  }

  lemma AccessWhenTicked(cpu: Cpu, insn: Word)
    ensures AccessOf(Ticked(cpu), insn) == AccessOf(cpu, insn)
    ensures ReadsPreimage(Ticked(cpu)) == ReadsPreimage(cpu)
    ensures forall pages :: PrintPanics(Ticked(cpu), insn, pages) == PrintPanics(cpu, insn, pages)
  {
    hide SE, Add, ReadPanics;
  }

  lemma PreimageChunk(data: seq<Byte>, offset: nat, a1: Word, a2: Word)
    requires offset <= |data|
    ensures var dat := data[offset..offset + Min(32, |data| - offset)]; var n := ReadLen(|data| - offset, a1, a2);
      && n == Min(Min(|dat|, 4 - a1 % 4), a2)
      && dat[..n] == data[offset..offset + n]
  {
  }

  lemma SignedZero(x: Word)
    ensures Signed(x) == 0 <==> x == 0
  {
  }
}
