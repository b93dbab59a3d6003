/**
 Checking steps without the VM: from the bytes of a state, the bytes of its proofs
 and the one pre-image a step reads, to the bytes of the next state.  The witnesses
 the VM hands out are enough for every step, and no other evidence can lead to a
 different state short of a hash collision.
 */
module StepCheck {
  import opened Words
  import opened Merkle
  import opened FlatMemory
  import opened Alu
  import opened InclusionProof
  import opened Cpu
  import opened VmHistory
  import opened Witness
  import MemoryRange
  import opened Wrappers

  datatype BranchProof = BranchProof(leaf: Hash, siblings: seq<Hash>)

  predicate Checks(h: HashFn, p: BranchProof, root: Hash, addr: Word) {
    |p.siblings| == 27 && Fold(h, p.leaf, p.siblings, addr / 32) == root
  }

  // The proof the VM hands out.
  function HonestProof(h: HashFn, mem: Flat, addr: Word): BranchProof {
    ProofShape(h, mem, addr);
    var p := ProofOf(h, mem, addr);
    BranchProof(p[0], p[1..])
  }

  function WordOfLeaf(leaf: Hash, addr: Word): Word
    requires Aligned(addr)
  {
    AlignedInLeaf(addr);
    FromBytes(leaf[addr % 32..addr % 32 + 4])
  }

  function LeafWithWord(leaf: Hash, addr: Word, v: Word): Hash
    requires Aligned(addr)
  {
    AlignedInLeaf(addr);
    leaf[..addr % 32] + ToBytes(v) + leaf[addr % 32 + 4..]
  }

  lemma LeafHoldsWord(mem: Flat, addr: Word)
    requires Aligned(addr)
    ensures WordOfLeaf(LeafAt(mem, addr), addr) == WordAt(mem, addr)
  {
    AlignedInLeaf(addr);
    SliceOfSlice(mem, 32 * (addr / 32), 32, addr % 32, 4);
  }

  lemma WrittenLeaf(mem: Flat, addr: Word, v: Word)
    requires Aligned(addr)
    ensures LeafAt(WithWord(mem, addr, v), addr) == LeafWithWord(LeafAt(mem, addr), addr, v)
  {
    AlignedInLeaf(addr);
    var leaf, leaf' := LeafAt(mem, addr), LeafAt(WithWord(mem, addr, v), addr);
    var base := 32 * (addr / 32);
    forall i | 0 <= i < 32 ensures leaf'[i] == LeafWithWord(leaf, addr, v)[i] {
      assert leaf'[i] == WithWord(mem, addr, v)[base + i] && leaf[i] == mem[base + i];
    }
  }

  // ----- The step verifier -----

  // Says of some data, length prefix included, that it is the pre-image of a key.
  type Authority = (Hash, seq<Byte>) -> bool

  function NodeAt(proof: seq<Byte>, k: nat): Hash
    requires 32 * k + 32 <= |proof|
  {
    proof[32 * k..32 * k + 32]
  }

  // The first or the second group of 28 nodes.
  function ProofAt(proof: seq<Byte>, i: nat): Option<BranchProof> {
    if |proof| < 896 * (i + 1) then None
    else
      var siblings := seq<Hash>(27, k requires 0 <= k < 27 => NodeAt(proof, 28 * i + 1 + k));
      Some(BranchProof(NodeAt(proof, 28 * i), siblings))
  }

  predicate Proves(h: HashFn, proof: seq<Byte>, i: nat, root: Hash, addr: Word) {
    var p := ProofAt(proof, i);
    p.Some? && Checks(h, p.value, root, addr)
  }

  // The pre-image at hand is the one the next read call asks for.
  predicate Supplied(genuine: Authority, cpu: Cpu, preimage: Preimage) {
    && preimage.Some? && cpu.preimageKey != Zeros(32)
    && preimage.value.0 == cpu.preimageKey && preimage.value.2 == cpu.preimageOffset
    && genuine(cpu.preimageKey, preimage.value.1)
  }

  function DataOf(preimage: Preimage): seq<Byte> {
    if preimage.Some? then preimage.value.1 else []
  }

  /** One step on a root and a processor.  It sees no memory, no pre-image but the one supplied, and nothing that
      the VM keeps to itself. */
  function CheckStep(h: HashFn, genuine: Authority, s: Commitment, proof: seq<Byte>, preimage: Preimage)
    : Option<Commitment>
  {
    if s.cpu.exited then Some(s)
    else if !Aligned(s.cpu.pc) || !Proves(h, proof, 0, s.root, s.cpu.pc) then None
    else
      var insn := WordOfLeaf(ProofAt(proof, 0).value.leaf, s.cpu.pc);
      var access := AccessOf(s.cpu, insn);
      if access.Some? && !Proves(h, proof, 1, s.root, access.value) then None
      else if IsSyscall(insn) && ReadsPreimage(s.cpu) && !Supplied(genuine, s.cpu, preimage) then None
      else
        var word := if access.Some? then WordOfLeaf(ProofAt(proof, 1).value.leaf, access.value) else 0;
        match Exec(NoOracle, Ticked(s.cpu), PreimageCache(s.cpu.preimageKey, DataOf(preimage)), insn, word)
        case Fault => None
        case Next(cpu, cache, store) =>
          Some(Commitment(if access.Some? && store.Some?
                          then Refolded(h, ProofAt(proof, 1).value, access.value, store.value) else s.root, cpu))
  }

  function NoOracle(key: Hash): seq<Byte> {
    []
  }

  // The root after the word at an address is overwritten.
  function Refolded(h: HashFn, p: BranchProof, addr: Word, v: Word): Hash
    requires Aligned(addr)
  {
    Fold(h, LeafWithWord(p.leaf, addr, v), p.siblings, addr / 32)
  }

  function EncodeOf(s: Option<Commitment>): Option<seq<Byte>> {
    if s.None? then None else Some(Encode(s.value.root, s.value.cpu))
  }

  /** The same on bytes only: from an encoded state to the next one. */
  function CheckBytes(h: HashFn, genuine: Authority, state: seq<Byte>, proof: seq<Byte>, preimage: Preimage)
    : Option<seq<Byte>>
  {
    var s := Decode(state);
    if s.None? then None else EncodeOf(CheckStep(h, genuine, s.value, proof, preimage))
  }

  // ----- What it is checked against -----

  function Commit(h: HashFn, vm: Vm): Commitment {
    Commitment(Root(h, vm.mem), vm.cpu)
  }

  function CommitOf(h: HashFn, r: Option<Vm>): Option<Commitment> {
    if r.None? then None else Some(Commit(h, r.value))
  }

  function EncodeVm(h: HashFn, vm: Vm): seq<Byte> {
    Encode(Root(h, vm.mem), vm.cpu)
  }

  // Only real pre-images are taken for genuine.
  ghost predicate Trusted(genuine: Authority, oracle: Oracle) {
    forall key: Hash, data: seq<Byte> :: genuine(key, data) ==> data == WithPrefix(oracle(key))
  }

  // The next step reads the pre-image through a key and an offset that a witness can carry, or reads none.
  predicate Provable(genuine: Authority, oracle: Oracle, vm: Vm) {
    StepReadsPreimage(vm) ==>
      && vm.cpu.preimageKey != Zeros(32) && vm.cpu.preimageOffset != NO_ACCESS
      && genuine(vm.cpu.preimageKey, WithPrefix(oracle(vm.cpu.preimageKey)))
  }

  /** The one panic that cannot be seen from a witness: it depends on which pages are allocated. */
  predicate PrintStops(vm: Vm) {
    !vm.cpu.exited && Aligned(vm.cpu.pc) && PrintPanics(vm.cpu, WordAt(vm.mem, vm.cpu.pc), vm.pages)
  }

  // The step of the VM as if no page were allocated.
  function BareStep(oracle: Oracle, vm: Vm): Option<Vm> {
    StepVm(oracle, vm.(pages := {}))
  }

  lemma BareStepAgrees(h: HashFn, oracle: Oracle, vm: Vm)
    ensures !PrintStops(vm) ==> CommitOf(h, BareStep(oracle, vm)) == CommitOf(h, StepVm(oracle, vm))
    ensures PrintStops(vm) ==> StepVm(oracle, vm).None?
  {
    hide Exec, AccessOf, Root, Store, FetchData, IsSyscall, MemoryRange.WrapsIntoOwnPage;
  }

  lemma HonestProofChecks(h: HashFn, mem: Flat, addr: Word)
    ensures HonestProof(h, mem, addr).leaf == LeafAt(mem, addr)
    ensures Checks(h, HonestProof(h, mem, addr), Root(h, mem), addr)
  {
    ProofFolds(h, mem, addr);
  }

  lemma HonestProofRefolds(h: HashFn, mem: Flat, addr: Word, v: Word)
    requires Aligned(addr)
    ensures var p := HonestProof(h, mem, addr);
      Fold(h, LeafWithWord(p.leaf, addr, v), p.siblings, addr / 32) == Root(h, WithWord(mem, addr, v))
  {
    ProofFolds(h, mem, addr);
    WriteRefolds(h, mem, addr, v);
    WrittenLeaf(mem, addr, v);
  }

  // ----- The witness handed out is enough -----

  lemma NodeInside(before: seq<Byte>, group: seq<Byte>, rest: seq<Byte>, i: nat, j: nat, k: nat)
    requires |before| == 896 * i && |group| == 896 && k < 28 && j == 28 * i + k
    ensures NodeAt(before + group + rest, j) == group[32 * k..32 * k + 32]
  {
    var s, o := before + group + rest, |before|;
    assert 32 * j == o + 32 * k && s[o..o + 896] == group;
    SliceOfSlice(s, o, 896, 32 * k, 32);
  }

  // Group i of the bytes is the proof whose nodes were put there.
  lemma ParsedAt(before: seq<Byte>, ps: seq<Hash>, rest: seq<Byte>, i: nat)
    requires |before| == 896 * i && |ps| == 28
    ensures ProofAt(before + Concat(ps) + rest, i) == Some(BranchProof(ps[0], ps[1..]))
  {
    var bs := before + Concat(ps) + rest;
    ConcatAt(ps, 0);
    NodeInside(before, Concat(ps), rest, i, 28 * i, 0);
    forall k | 0 <= k < 27 ensures NodeAt(bs, 28 * i + 1 + k) == ps[1..][k] {
      ConcatAt(ps, k + 1);
      NodeInside(before, Concat(ps), rest, i, 28 * i + 1 + k, k + 1);
    }
    assert ProofAt(bs, i).value.siblings == ps[1..];
  }

  // Both halves of the proof bytes, as the honest prover lays them out.
  predicate HonestProofs(h: HashFn, vm: Vm, proof: seq<Byte>) {
    && ProofAt(proof, 0) == Some(HonestProof(h, vm.mem, vm.cpu.pc))
    && (StepAccess(vm).Some? ==> ProofAt(proof, 1) == Some(HonestProof(h, vm.mem, StepAccess(vm).value)))
  }

  lemma WitnessProofs(h: HashFn, vm: Vm, v: Vm, lastProof: seq<Byte>)
    ensures HonestProofs(h, vm, WitnessOf(h, vm, v, lastProof).memProof)
  {
    hide ProofAt, Concat, ProofOf, StepAccess, StepReadsPreimage, Encode, Root;
    var access := StepAccess(vm);
    var insn := ProofOf(h, vm.mem, vm.cpu.pc);
    ProofShape(h, vm.mem, vm.cpu.pc);
    ConcatAt(insn, 0);
    if access.Some? {
      var data := ProofOf(h, vm.mem, access.value);
      ProofShape(h, vm.mem, access.value);
      ParsedAt([], insn, Concat(data), 0);
      ParsedAt(Concat(insn), data, [], 1);
      assert [] + Concat(insn) + Concat(data) == Concat(insn) + Concat(data)
          == Concat(insn) + Concat(data) + [];
    } else {
      ParsedAt([], insn, lastProof, 0);
      assert [] + Concat(insn) + lastProof == Concat(insn) + lastProof;
    }
  }

  // Two effects that differ in the cache at most.
  predicate SameEffect(a: Effect, b: Effect) {
    a.Next? == b.Next? && (a.Next? ==> a.cpu == b.cpu && a.store == b.store)
  }

  // What an instruction does depends on the data of the pre-image it reads, not on where that came from.
  lemma ExecSeesData(oracle: Oracle, cache: PreimageCache, oracle': Oracle, cache': PreimageCache,
                     cpu: Cpu, insn: Word, word: Word)
    requires IsSyscall(insn) && ReadsPreimage(cpu) ==>
      Fetch(oracle, cache, cpu.preimageKey).data == Fetch(oracle', cache', cpu.preimageKey).data
    ensures SameEffect(Exec(oracle, cpu, cache, insn, word), Exec(oracle', cpu, cache', insn, word))
  {
    hide MemOp, Jump, Branch, JumpTarget, Fetch, Execute, Operand;
    if Opcode(insn) < 0x20 {
      AluSeesData(oracle, cache, oracle', cache', cpu, insn, word);
    } else {
      MemSeesNothing(cache, cache', cpu, insn, word);
    }
  }

  lemma MemSeesNothing(cache: PreimageCache, cache': PreimageCache, cpu: Cpu, insn: Word, word: Word)
    ensures SameEffect(MemOp(cpu, cache, insn, word), MemOp(cpu, cache', insn, word))
  {
    hide Execute, EffAddr, Operand;
  }

  lemma AluSeesData(oracle: Oracle, cache: PreimageCache, oracle': Oracle, cache': PreimageCache,
                    cpu: Cpu, insn: Word, word: Word)
    requires IsSyscall(insn) && ReadsPreimage(cpu) ==>
      Fetch(oracle, cache, cpu.preimageKey).data == Fetch(oracle', cache', cpu.preimageKey).data
    ensures SameEffect(AluOp(oracle, cpu, cache, insn, word), AluOp(oracle', cpu, cache', insn, word))
  {
    hide Fetch, Execute, Operand, HiLo, Jump, Rd, Syscall;
    if IsSyscall(insn) {
      CallSeesData(oracle, cache, oracle', cache', cpu, word);
    }
  }

  lemma CallSeesData(oracle: Oracle, cache: PreimageCache, oracle': Oracle, cache': PreimageCache, cpu: Cpu, word: Word)
    requires ReadsPreimage(cpu) ==>
      Fetch(oracle, cache, cpu.preimageKey).data == Fetch(oracle', cache', cpu.preimageKey).data
    ensures SameEffect(Syscall(oracle, cpu, cache, word), Syscall(oracle', cpu, cache', word))
  {
    hide Fetch, Mmap, Write, Fcntl, SyscallReturn, PutBytes, ReadLen;
  }

  // The pre-image supplied is the one the VM reads.
  lemma SuppliedIsFetched(genuine: Authority, oracle: Oracle, vm: Vm, preimage: Preimage)
    requires Trusted(genuine, oracle) && CacheOk(oracle, vm.cache) && Supplied(genuine, vm.cpu, preimage)
    ensures Fetch(NoOracle, PreimageCache(vm.cpu.preimageKey, DataOf(preimage)), vm.cpu.preimageKey).data
         == Fetch(oracle, vm.cache, vm.cpu.preimageKey).data
  {
    hide WithPrefix, Zeros;
  }

  /** With the proofs of the VM, the step verifier does what the VM does, whatever it can see of it; a read of the
      pre-image it lets pass exactly when that is supplied. */
  lemma HonestStepChecks(h: HashFn, genuine: Authority, oracle: Oracle, vm: Vm, proof: seq<Byte>, preimage: Preimage)
    requires Trusted(genuine, oracle) && CacheOk(oracle, vm.cache) && HonestProofs(h, vm, proof)
    ensures CheckStep(h, genuine, Commit(h, vm), proof, preimage) ==
      if StepReadsPreimage(vm) && !Supplied(genuine, vm.cpu, preimage) then None
      else CommitOf(h, BareStep(oracle, vm))
  {
    hide Exec, AccessOf, HonestProof, ProofAt, Checks, Fold, WordOfLeaf, LeafWithWord, WordAt, WithWord, Root;
    hide Supplied, Fetch, CacheOk, Trusted, IsSyscall, ReadsPreimage, MemoryRange.WrapsIntoOwnPage, Zeros;
    HonestProofChecks(h, vm.mem, vm.cpu.pc);
    if Aligned(vm.cpu.pc) && !vm.cpu.exited {
      LeafHoldsWord(vm.mem, vm.cpu.pc);
      var access, insn := StepAccess(vm), WordAt(vm.mem, vm.cpu.pc);
      if access.Some? {
        HonestProofChecks(h, vm.mem, access.value);
        LeafHoldsWord(vm.mem, access.value);
      }
      if !(StepReadsPreimage(vm) && !Supplied(genuine, vm.cpu, preimage)) {
        if StepReadsPreimage(vm) {
          SuppliedIsFetched(genuine, oracle, vm, preimage);
        }
        var word := FetchData(vm.mem, access);
        ReadsWhenTicked(vm.cpu);
        ExecSeesData(oracle, vm.cache, NoOracle, PreimageCache(vm.cpu.preimageKey, DataOf(preimage)),
                     Ticked(vm.cpu), insn, word);
        var r := Exec(oracle, Ticked(vm.cpu), vm.cache, insn, word);
        if access.Some? && r.Next? && r.store.Some? {
          HonestProofRefolds(h, vm.mem, access.value, r.store.value);
        }
      }
    }
  }

  // The processor after an output call, as it returns.
  function AfterPrint(vm: Vm): Cpu {
    SyscallReturn(Ticked(vm.cpu), vm.cpu.regs[6], 0)
  }

  /** Where the VM panics on an output call, the step verifier accepts the step and takes the call for done. */
  lemma AcceptsWherePrintStops(
    h: HashFn, genuine: Authority, oracle: Oracle, vm: Vm, proof: seq<Byte>, preimage: Preimage)
    requires Trusted(genuine, oracle) && CacheOk(oracle, vm.cache) && HonestProofs(h, vm, proof) && PrintStops(vm)
    ensures StepVm(oracle, vm).None?
    ensures CheckStep(h, genuine, Commit(h, vm), proof, preimage) == Some(Commitment(Root(h, vm.mem), AfterPrint(vm)))
  {
    hide Exec, HonestProofs, CheckStep, Trusted, CacheOk, Root, WordAt, SyscallReturn, Supplied;
    hide MemoryRange.WrapsIntoOwnPage;
    HonestStepChecks(h, genuine, oracle, vm, proof, preimage);
    var insn := WordAt(vm.mem, vm.cpu.pc);
    SyscallExec(oracle, Ticked(vm.cpu), vm.cache, insn, 0);
  }

  lemma ReadsWhenTicked(cpu: Cpu)
    ensures ReadsPreimage(Ticked(cpu)) == ReadsPreimage(cpu)
  {
  }

  /** The witness of any step takes the bytes of the state before it to the bytes of the state after it, if and only
      if the step reads no pre-image or one that a witness can carry. */
  lemma WitnessChecks(h: HashFn, genuine: Authority, oracle: Oracle, vm: Vm, v: Vm, lastProof: seq<Byte>)
    requires Trusted(genuine, oracle) && CacheOk(oracle, vm.cache) && StepVm(oracle, vm) == Some(v)
    ensures var wit := WitnessOf(h, vm, v, lastProof);
      CheckBytes(h, genuine, wit.state, wit.memProof, wit.preimage) ==
      if Provable(genuine, oracle, vm) then Some(EncodeVm(h, v)) else None
  {
    hide StepVm, CheckStep, ProofOf, Concat, Encode, Decode, StepAccess, StepReadsPreimage, HonestProofs, CacheOk, Root;
    hide Trusted, BareStep, PrintStops;
    var wit := WitnessOf(h, vm, v, lastProof);
    DecodeEncode(Root(h, vm.mem), vm.cpu);
    WitnessProofs(h, vm, v, lastProof);
    HonestStepChecks(h, genuine, oracle, vm, wit.memProof, wit.preimage);
    BareStepAgrees(h, oracle, vm);
    if StepReadsPreimage(vm) {
      WitnessSupplies(h, genuine, oracle, vm, v, lastProof);
    }
  }

  lemma WitnessSupplies(h: HashFn, genuine: Authority, oracle: Oracle, vm: Vm, v: Vm, lastProof: seq<Byte>)
    requires CacheOk(oracle, vm.cache) && StepVm(oracle, vm) == Some(v) && StepReadsPreimage(vm)
    ensures Supplied(genuine, vm.cpu, WitnessOf(h, vm, v, lastProof).preimage) <==> Provable(genuine, oracle, vm)
  {
    hide StepVm, ProofOf, Concat, Encode, StepAccess, WithPrefix, Zeros, Root, ReadLen;
    ReadStep(oracle, vm);
    FetchExactly(oracle, vm.cache, vm.cpu.preimageKey);
  }

  // ----- No other proofs lead elsewhere -----

  /** A collision between a presented branch and a tree: at some node above, the children presented and the children
      in the tree differ and hash to one value. */
  ghost predicate CollidesOn(
    h: HashFn, data: seq<Byte>, n: nat, g: nat, node: Hash, sibs: seq<Hash>, c: Collision)
    requires Leaves(data, n) && 1 <= g < 2 * n
    decreases |sibs|
  {
    sibs != [] && g >= 2
    && var p := g / 2;
       var left, right := if g % 2 == 1 then sibs[0] else node, if g % 2 == 1 then node else sibs[0];
       || (c.Breaks(h) && c == Collision(left, right, Tree(h, data, n, 2 * p), Tree(h, data, n, 2 * p + 1)))
       || CollidesOn(h, data, n, p, h(left, right), sibs[1..], c)
  }

  /** A branch that folds to the root of a tree is the branch of that tree, and only then is no collision between the
      two handed out. */
  lemma {:induction false} BranchUnique(
    h: HashFn, data: seq<Byte>, n: nat, g: nat, d: nat, node: Hash, sibs: seq<Hash>)
    returns (broken: Option<Collision>)
    requires Leaves(data, n) && Pow2(d) <= g < 2 * Pow2(d) && g < 2 * n && Above(1, g) && |sibs| == d
    requires Fold(h, node, sibs, g - Pow2(d)) == Tree(h, data, n, 1)
    ensures broken.None? <==> node == Tree(h, data, n, g) && sibs == Siblings(h, data, n, g, 1)
    ensures broken.Some? ==> CollidesOn(h, data, n, g, node, sibs, broken.value)
    decreases d
  {
    hide Tree, Siblings, Above, Fold;
    if d == 0 {
      BranchEnds(h, data, n, node, sibs);
      return None;
    }
    var p := g / 2;
    var left, right := if g % 2 == 1 then sibs[0] else node, if g % 2 == 1 then node else sibs[0];
    BranchSplits(h, data, n, g, d, node, sibs, left, right);
    broken := BranchUnique(h, data, n, p, d - 1, h(left, right), sibs[1..]);
    var left', right' := Tree(h, data, n, 2 * p), Tree(h, data, n, 2 * p + 1);
    if broken.None? && (left, right) != (left', right') {
      broken := Some(Collision(left, right, left', right'));
    }
  }

  lemma BranchEnds(h: HashFn, data: seq<Byte>, n: nat, node: Hash, sibs: seq<Hash>)
    requires Leaves(data, n) && sibs == [] && Fold(h, node, sibs, 0) == Tree(h, data, n, 1)
    ensures Above(1, 1) && node == Tree(h, data, n, 1) && sibs == Siblings(h, data, n, 1, 1)
  {
  }

  // A branch is its lowest pair of children and the branch above them.
  lemma BranchSplits(h: HashFn, data: seq<Byte>, n: nat, g: nat, d: nat, node: Hash, sibs: seq<Hash>,
                     left: Hash, right: Hash)
    requires Leaves(data, n) && d > 0 && Pow2(d) <= g < 2 * Pow2(d) && g < 2 * n && Above(1, g) && |sibs| == d
    requires left == (if g % 2 == 1 then sibs[0] else node) && right == (if g % 2 == 1 then node else sibs[0])
    ensures var p := g / 2;
      && Pow2(d - 1) <= p < 2 * Pow2(d - 1) && 1 <= p < n && Above(1, p)
      && Fold(h, node, sibs, g - Pow2(d)) == Fold(h, h(left, right), sibs[1..], p - Pow2(d - 1))
      && Tree(h, data, n, p) == h(Tree(h, data, n, 2 * p), Tree(h, data, n, 2 * p + 1))
      && (node == Tree(h, data, n, g) && sibs == Siblings(h, data, n, g, 1) <==>
          && left == Tree(h, data, n, 2 * p) && right == Tree(h, data, n, 2 * p + 1)
          && sibs[1..] == Siblings(h, data, n, p, 1))
  {
    var p := g / 2;
    assert g == 2 * p + g % 2 && (g - Pow2(d)) / 2 == p - Pow2(d - 1) && (g - Pow2(d)) % 2 == g % 2;
    assert sibs == [sibs[0]] + sibs[1..];
    assert Siblings(h, data, n, g, 1) == [Tree(h, data, n, Sibling(g))] + Siblings(h, data, n, p, 1);
    assert Sibling(g) == if g % 2 == 1 then 2 * p else 2 * p + 1;
  }

  lemma ProofUnique(h: HashFn, mem: Flat, addr: Word, p: BranchProof) returns (broken: Option<Collision>)
    requires Checks(h, p, Root(h, mem), addr)
    ensures broken.None? <==> p == HonestProof(h, mem, addr)
    ensures broken.Some? ==> ProofCollides(h, mem, addr, p, broken.value)
  {
    AboveOne(LeafIndex(addr));
    assert Pow2(27) == LEAVES by { TreeSizes(); }
    broken := BranchUnique(h, mem, LEAVES, LeafIndex(addr), 27, p.leaf, p.siblings);
    HonestParts(h, mem, addr);
  }

  // A collision between a proof for an address and the memory.
  ghost predicate ProofCollides(h: HashFn, mem: Flat, addr: Word, p: BranchProof, c: Collision) {
    CollidesOn(h, mem, LEAVES, LeafIndex(addr), p.leaf, p.siblings, c)
  }

  // A collision between one of the two proofs of a step and the memory before the step.
  ghost predicate StepCollides(h: HashFn, vm: Vm, proof: seq<Byte>, c: Collision) {
    var access := StepAccess(vm);
    || (ProofAt(proof, 0).Some? && ProofCollides(h, vm.mem, vm.cpu.pc, ProofAt(proof, 0).value, c))
    || (access.Some? && ProofAt(proof, 1).Some? && ProofCollides(h, vm.mem, access.value, ProofAt(proof, 1).value, c))
  }

  lemma HonestParts(h: HashFn, mem: Flat, addr: Word)
    ensures Above(1, LeafIndex(addr))
    ensures HonestProof(h, mem, addr)
         == BranchProof(Node(h, mem, LeafIndex(addr)), Siblings(h, mem, LEAVES, LeafIndex(addr), 1))
  {
    ProofShape(h, mem, addr);
  }

  /** Whatever bytes are presented as proofs, and whatever pre-image, an accepted step arrives at the encoding of the
      VM's next state, or there is a collision between the proofs and the memory.  Where the VM panics in a way that
      no witness shows, it arrives at the state after the call. */
  lemma AcceptedStepIsRight(
    h: HashFn, genuine: Authority, oracle: Oracle, vm: Vm, proof: seq<Byte>, preimage: Preimage)
    returns (broken: Option<Collision>)
    requires Trusted(genuine, oracle) && CacheOk(oracle, vm.cache)
    requires CheckBytes(h, genuine, EncodeVm(h, vm), proof, preimage).Some?
    ensures broken.None? && !PrintStops(vm) ==>
      && StepVm(oracle, vm).Some?
      && CheckBytes(h, genuine, EncodeVm(h, vm), proof, preimage) == Some(EncodeVm(h, StepVm(oracle, vm).value))
    ensures broken.None? && PrintStops(vm) ==>
      && StepVm(oracle, vm).None?
      && CheckBytes(h, genuine, EncodeVm(h, vm), proof, preimage) == Some(Encode(Root(h, vm.mem), AfterPrint(vm)))
    ensures broken.Some? ==> StepCollides(h, vm, proof, broken.value)
  {
    hide StepVm, CheckStep, Encode, Decode, HonestProofs, CacheOk, Root, Trusted, BareStep, PrintStops;
    DecodeEncode(Root(h, vm.mem), vm.cpu);
    if vm.cpu.exited {
      ExitedStays(h, genuine, oracle, vm, proof, preimage);
      return None;
    }
    broken := AcceptedProofs(h, genuine, vm, proof, preimage);
    if broken.None? {
      HonestStepChecks(h, genuine, oracle, vm, proof, preimage);
      BareStepAgrees(h, oracle, vm);
      if PrintStops(vm) {
        AcceptsWherePrintStops(h, genuine, oracle, vm, proof, preimage);
      }
    }
  }

  lemma ExitedStays(h: HashFn, genuine: Authority, oracle: Oracle, vm: Vm, proof: seq<Byte>, preimage: Preimage)
    requires vm.cpu.exited
    ensures CheckStep(h, genuine, Commit(h, vm), proof, preimage) == Some(Commit(h, vm))
    ensures StepVm(oracle, vm) == Some(vm) && !PrintStops(vm)
  {
  }

  // The proofs of an accepted step are those of the VM.
  lemma AcceptedProofs(h: HashFn, genuine: Authority, vm: Vm, proof: seq<Byte>, preimage: Preimage)
    returns (broken: Option<Collision>)
    requires !vm.cpu.exited && CheckStep(h, genuine, Commit(h, vm), proof, preimage).Some?
    ensures broken.None? ==> HonestProofs(h, vm, proof)
    ensures broken.Some? ==> StepCollides(h, vm, proof, broken.value)
  {
    hide Exec, AccessOf, HonestProof, ProofAt, Checks, Fold, WordOfLeaf, LeafWithWord, WordAt, Root, Supplied, IsSyscall;
    broken := ProofUnique(h, vm.mem, vm.cpu.pc, ProofAt(proof, 0).value);
    if broken.Some? {
      return;
    }
    HonestProofChecks(h, vm.mem, vm.cpu.pc);
    LeafHoldsWord(vm.mem, vm.cpu.pc);
    if StepAccess(vm).Some? {
      broken := ProofUnique(h, vm.mem, StepAccess(vm).value, ProofAt(proof, 1).value);
    }
  }

  // ----- Whole runs -----

  // What is presented for one step.
  datatype Evidence = Evidence(proof: seq<Byte>, preimage: Preimage)

  // Check one step per piece of evidence, the most recent last.
  function CheckRun(h: HashFn, genuine: Authority, state: seq<Byte>, evidence: seq<Evidence>): Option<seq<Byte>> {
    if evidence == [] then Some(state)
    else
      var prev := CheckRun(h, genuine, state, evidence[..|evidence| - 1]);
      var last := evidence[|evidence| - 1];
      if prev.None? then None else CheckBytes(h, genuine, prev.value, last.proof, last.preimage)
  }

  lemma CacheStaysOk(oracle: Oracle, vm: Vm)
    requires CacheOk(oracle, vm.cache) && StepVm(oracle, vm).Some?
    ensures CacheOk(oracle, StepVm(oracle, vm).value.cache)
  {
    hide StepVm, CacheOk, AtSyscall;
    var v := StepVm(oracle, vm).value;
    if AtKeyWrite(vm) {
      KeyWriteStep(oracle, vm, v);
    } else if AtPreimageRead(vm) {
      ReadStep(oracle, vm);
      FetchExactly(oracle, vm.cache, vm.cpu.preimageKey);
    } else {
      QuietStep(oracle, vm, v);
    }
  }

  lemma {:induction false} CacheOkInRun(oracle: Oracle, vm: Vm, n: nat)
    requires CacheOk(oracle, vm.cache) && RunVm(oracle, vm, n).Some?
    ensures CacheOk(oracle, RunVm(oracle, vm, n).value.cache)
  {
    hide StepVm, CacheOk;
    if n > 0 {
      CacheOkInRun(oracle, vm, n - 1);
      CacheStaysOk(oracle, RunVm(oracle, vm, n - 1).value);
    }
  }

  // A collision between the proofs of step k of the run and the memory before it.
  ghost predicate RunCollides(h: HashFn, oracle: Oracle, vm: Vm, k: nat, e: Evidence, c: Collision) {
    RunVm(oracle, vm, k).Some? && StepCollides(h, RunVm(oracle, vm, k).value, e.proof, c)
  }

  // The run comes, before its step n, to a panic that no witness shows.
  predicate PrintStopsBefore(oracle: Oracle, vm: Vm, n: nat) {
    exists k :: 0 <= k < n && RunVm(oracle, vm, k).Some? && PrintStops(RunVm(oracle, vm, k).value)
  }

  /** An accepted chain of any length ends in the encoding of the state that the VM's own run of that length ends in,
      or there is a collision between the proofs of one of its steps and the memory before that step; unless that run
      panics in a way that no witness shows. */
  lemma {:induction false} AcceptedRunIsRight(
    h: HashFn, genuine: Authority, oracle: Oracle, vm: Vm, evidence: seq<Evidence>)
    returns (broken: Option<Collision>)
    requires Trusted(genuine, oracle) && CacheOk(oracle, vm.cache)
    requires CheckRun(h, genuine, EncodeVm(h, vm), evidence).Some?
    ensures var r := RunVm(oracle, vm, |evidence|);
      broken.None? && !PrintStopsBefore(oracle, vm, |evidence|) ==>
        r.Some? && CheckRun(h, genuine, EncodeVm(h, vm), evidence) == Some(EncodeVm(h, r.value))
    ensures broken.Some? ==> exists k :: 0 <= k < |evidence| && RunCollides(h, oracle, vm, k, evidence[k], broken.value)
    decreases |evidence|
  {
    hide CheckBytes, StepVm, EncodeVm, CacheOk, Trusted, PrintStops, StepCollides, Encode, AfterPrint;
    if evidence == [] {
      return None;
    }
    var front, last := evidence[..|evidence| - 1], evidence[|evidence| - 1];
    broken := AcceptedRunIsRight(h, genuine, oracle, vm, front);
    if broken.Some? {
      var k :| 0 <= k < |front| && RunCollides(h, oracle, vm, k, front[k], broken.value);
      assert RunCollides(h, oracle, vm, k, evidence[k], broken.value);
    }
    if broken.None? && !PrintStopsBefore(oracle, vm, |evidence|) {
      assert !PrintStopsBefore(oracle, vm, |front|);
      var reached := RunVm(oracle, vm, |front|).value;
      CacheOkInRun(oracle, vm, |front|);
      broken := AcceptedStepIsRight(h, genuine, oracle, reached, last.proof, last.preimage);
      assert broken.Some? ==> RunCollides(h, oracle, vm, |front|, evidence[|front|], broken.value);
    }
  }

  // The evidence of one step, as handed out.
  ghost predicate IsEvidence(h: HashFn, vm: Vm, v: Vm, e: Evidence) {
    exists lastProof :: e == EvidenceIn(WitnessOf(h, vm, v, lastProof))
  }

  function EvidenceIn(wit: StepWitness): Evidence {
    Evidence(wit.memProof, wit.preimage)
  }

  lemma EvidenceChecks(h: HashFn, genuine: Authority, oracle: Oracle, vm: Vm, v: Vm, e: Evidence)
    requires Trusted(genuine, oracle) && CacheOk(oracle, vm.cache) && StepVm(oracle, vm) == Some(v)
    requires IsEvidence(h, vm, v, e)
    ensures CheckBytes(h, genuine, EncodeVm(h, vm), e.proof, e.preimage) ==
      if Provable(genuine, oracle, vm) then Some(EncodeVm(h, v)) else None
  {
    hide CheckBytes, StepVm, CacheOk, Trusted, Provable, Encode, Concat, ProofOf, StepAccess, StepReadsPreimage, Root;
    var lastProof :| e == EvidenceIn(WitnessOf(h, vm, v, lastProof));
    WitnessChecks(h, genuine, oracle, vm, v, lastProof);
  }

  /** The witnesses of a run check out one after the other, from the encoding of its first state to that of its last,
      if and only if every pre-image read is one that a witness can carry. */
  lemma {:induction false} RunChecks(
    h: HashFn, genuine: Authority, oracle: Oracle, t: seq<Vm>, evidence: seq<Evidence>)
    requires Trusted(genuine, oracle) && IsRun(oracle, t) && CacheOk(oracle, t[0].cache)
    requires |evidence| == |t| - 1
    requires forall k :: 0 <= k < |evidence| ==> IsEvidence(h, t[k], t[k + 1], evidence[k])
    ensures CacheOk(oracle, t[|t| - 1].cache)
    ensures CheckRun(h, genuine, EncodeVm(h, t[0]), evidence) ==
      if forall k :: 0 <= k < |t| - 1 ==> Provable(genuine, oracle, t[k]) then Some(EncodeVm(h, t[|t| - 1])) else None
    decreases |t|
  {
    hide CheckBytes, StepVm, IsEvidence, EncodeVm, CacheOk, Trusted, Provable;
    if |t| > 1 {
      var n := |t| - 2;
      var front, before := evidence[..n], t[..n + 1];
      RunFront(oracle, t);
      RunChecks(h, genuine, oracle, before, front);
      CacheStaysOk(oracle, t[n]);
      EvidenceChecks(h, genuine, oracle, t[n], t[n + 1], evidence[n]);
    }
  }
}
