/**
 The commitment to a VM state: its byte encoding and decoding, what equal encodings
 say about two states, and the witness handed out with a step.
 */
module Witness {
  import opened Words
  import opened Merkle
  import opened FlatMemory
  import opened InclusionProof
  import opened Alu
  import opened Cpu
  import opened Wrappers

  // ----- The encoding -----

  function Header(root: Hash, c: Cpu): seq<Byte> {
    root + c.preimageKey + ToBytes(c.preimageOffset) + ToBytes(c.pc) + ToBytes(c.nextPC) + ToBytes(c.lo)
    + ToBytes(c.hi) + ToBytes(c.heap) + [c.exitCode] + [if c.exited then 1 else 0] + Uint64Bytes(c.step)
  }

  function RegBytes(regs: seq<Word>): seq<Byte> {
    if regs == [] then [] else RegBytes(regs[..|regs| - 1]) + ToBytes(regs[|regs| - 1])
  }

  function Encode(root: Hash, c: Cpu): seq<Byte> {
    Header(root, c) + RegBytes(c.regs)
  }

  lemma HeaderSlices(root: Hash, c: Cpu)
    ensures var e := Header(root, c);
      && |e| == 98 && e[..32] == root && e[32..64] == c.preimageKey && e[64..68] == ToBytes(c.preimageOffset)
      && e[68..72] == ToBytes(c.pc) && e[72..76] == ToBytes(c.nextPC) && e[76..80] == ToBytes(c.lo)
      && e[80..84] == ToBytes(c.hi) && e[84..88] == ToBytes(c.heap) && e[88] == c.exitCode
      && e[89] == (if c.exited then 1 else 0) && e[90..98] == Uint64Bytes(c.step)
  {
    hide ToBytes, Uint64Bytes;
  }

  lemma {:induction false} RegSlice(regs: seq<Word>, i: nat)
    requires i < |regs|
    ensures |RegBytes(regs)| == 4 * |regs| && RegBytes(regs)[4 * i..4 * i + 4] == ToBytes(regs[i])
    decreases |regs|
  {
    hide ToBytes;
    var front := regs[..|regs| - 1];
    if |regs| > 1 {
      RegSlice(front, if i < |front| then i else 0);
    }
    if i < |front| {
      assert RegBytes(regs)[4 * i..4 * i + 4] == RegBytes(front)[4 * i..4 * i + 4];
    }
  }

  // ----- Decoding -----

  // What the bytes of a state say: the memory root and the processor.
  datatype Commitment = Commitment(root: Hash, cpu: Cpu)

  function Field(s: seq<Byte>, at: nat): Word
    requires at + 4 <= |s|
  {
    FromBytes(s[at..at + 4])
  }

  function DecodeRegs(s: seq<Byte>): RegFile
    requires |s| == 226
  {
    seq(32, i requires 0 <= i < 32 => Field(s, 98 + 4 * i))
  }

  function Decode(s: seq<Byte>): Option<Commitment> {
    if |s| != 226 || s[89] > 1 then None
    else
      Some(Commitment(s[..32], Cpu(
        pc := Field(s, 68), nextPC := Field(s, 72), lo := Field(s, 76), hi := Field(s, 80), heap := Field(s, 84),
        regs := DecodeRegs(s), preimageKey := s[32..64], preimageOffset := Field(s, 64),
        exitCode := s[88], exited := s[89] == 1, step := Field(s, 90) * WORD_RANGE + Field(s, 94))))
  }

  lemma {:induction false} RegBytesSize(regs: seq<Word>)
    ensures |RegBytes(regs)| == 4 * |regs|
    decreases |regs|
  {
    hide ToBytes;
    if regs != [] {
      RegBytesSize(regs[..|regs| - 1]);
    }
  }

  lemma FieldOfHeader(root: Hash, c: Cpu, at: nat)
    requires at + 4 <= 98
    ensures |Encode(root, c)| == 226 && Field(Encode(root, c), at) == Field(Header(root, c), at)
  {
    hide Header, RegBytes, ToBytes, FromBytes;
    HeaderSlices(root, c);
    RegBytesSize(c.regs);
    assert Encode(root, c)[at..at + 4] == Header(root, c)[at..at + 4];
  }

  lemma StepField(root: Hash, c: Cpu)
    ensures |Header(root, c)| == 98
    ensures Field(Header(root, c), 90) * WORD_RANGE + Field(Header(root, c), 94) == c.step
  {
    hide Header, ToBytes, FromBytes;
    HeaderSlices(root, c);
    var e, hi, lo := Header(root, c), c.step / WORD_RANGE % WORD_RANGE, c.step % WORD_RANGE;
    assert e[90..94] == e[90..98][..4] == ToBytes(hi) && e[94..98] == e[90..98][4..] == ToBytes(lo);
    WordRoundTrip(hi);
    WordRoundTrip(lo);
  }

  lemma RegsDecoded(root: Hash, c: Cpu)
    ensures |Encode(root, c)| == 226 && DecodeRegs(Encode(root, c)) == c.regs
  {
    hide Header, RegBytes, ToBytes, FromBytes;
    var e := Encode(root, c);
    HeaderSlices(root, c);
    RegBytesSize(c.regs);
    forall i | 0 <= i < 32 ensures DecodeRegs(e)[i] == c.regs[i] {
      RegSlice(c.regs, i);
      WordRoundTrip(c.regs[i]);
      assert e[98 + 4 * i..98 + 4 * i + 4] == RegBytes(c.regs)[4 * i..4 * i + 4];
    }
  }

  /** Decoding a state's bytes gives back its root and its processor. */
  lemma DecodeEncode(root: Hash, c: Cpu)
    ensures Decode(Encode(root, c)) == Some(Commitment(root, c))
  {
    hide Header, RegBytes, ToBytes, FromBytes, DecodeRegs, Field;
    HeaderSlices(root, c);
    RegsDecoded(root, c);
    StepField(root, c);
    FieldOfHeader(root, c, 90);
    FieldOfHeader(root, c, 94);
    HeaderWords(root, c);
    var e := Encode(root, c);
    assert e[..32] == Header(root, c)[..32] && e[32..64] == Header(root, c)[32..64];
    assert e[88] == Header(root, c)[88] && e[89] == Header(root, c)[89];
  }

  lemma HeaderWords(root: Hash, c: Cpu)
    ensures var e := Encode(root, c);
      && |e| == 226 && Field(e, 64) == c.preimageOffset && Field(e, 68) == c.pc && Field(e, 72) == c.nextPC
      && Field(e, 76) == c.lo && Field(e, 80) == c.hi && Field(e, 84) == c.heap
  {
    hide Header, ToBytes, FromBytes, Encode;
    HeaderSlices(root, c);
    WordRoundTrip(c.preimageOffset);
    WordRoundTrip(c.pc);
    WordRoundTrip(c.nextPC);
    WordRoundTrip(c.lo);
    WordRoundTrip(c.hi);
    WordRoundTrip(c.heap);
    FieldOfHeader(root, c, 64);
    FieldOfHeader(root, c, 68);
    FieldOfHeader(root, c, 72);
    FieldOfHeader(root, c, 76);
    FieldOfHeader(root, c, 80);
    FieldOfHeader(root, c, 84);
  }

  /** Equal encodings carry equal roots and equal processor states. */
  lemma EncodeInjective(root: Hash, c: Cpu, root': Hash, c': Cpu)
    requires Encode(root, c) == Encode(root', c')
    ensures root == root' && c == c'
  {
    hide Encode, Decode;
    DecodeEncode(root, c);
    DecodeEncode(root', c');
  }

  // ----- The witness of a step -----

  const NO_ACCESS: Word := 0xFFFF_FFFF

  // A pre-image that was read: its key, its data with the length prefix, and the offset it was read at.
  type Preimage = Option<(Hash, seq<Byte>, Word)>

  // Encoded state, proofs of the instruction and of the data word, and the pre-image read, if any.
  datatype StepWitness = StepWitness(state: seq<Byte>, memProof: seq<Byte>, preimage: Preimage)

  // The witness of the step from vm to v; a step without a data access leaves in it the last data proof made.
  function WitnessOf(h: HashFn, vm: Vm, v: Vm, lastProof: seq<Byte>): StepWitness {
    var access := StepAccess(vm);
    StepWitness(
      Encode(Root(h, vm.mem), vm.cpu),
      Concat(ProofOf(h, vm.mem, vm.cpu.pc))
        + (if access.Some? then Concat(ProofOf(h, vm.mem, access.value)) else lastProof),
      if StepReadsPreimage(vm) && vm.cpu.preimageOffset != NO_ACCESS
      then Some((v.cache.key, v.cache.data, vm.cpu.preimageOffset)) else None)
  }

  // ----- Binding -----

  lemma SameLeavesSameMemory(mem: Flat, mem': Flat)
    requires forall i :: 0 <= i < LEAVES ==> Leaf(mem, LEAVES, i) == Leaf(mem', LEAVES, i)
    ensures mem == mem'
  {
    forall j | 0 <= j < WORD_RANGE ensures mem[j] == mem'[j] {
      assert mem[j] == Leaf(mem, LEAVES, j / 32)[j % 32];
      assert mem'[j] == Leaf(mem', LEAVES, j / 32)[j % 32];
    }
  }

  /** Two states with one commitment are the same state, or a collision among the nodes of the two memories is handed
      out. */
  lemma CommitmentBinds(h: HashFn, mem: Flat, c: Cpu, mem': Flat, c': Cpu) returns (broken: Option<Collision>)
    requires Encode(Root(h, mem), c) == Encode(Root(h, mem'), c')
    ensures c == c' && (broken.None? <==> mem == mem')
    ensures broken.Some? ==> CollidesIn(h, mem, mem', LEAVES, broken.value)
  {
    hide Encode, CollidesIn;
    EncodeInjective(Root(h, mem), c, Root(h, mem'), c');
    if i: nat :| i < LEAVES && Leaf(mem, LEAVES, i) != Leaf(mem', LEAVES, i) {
      AboveOne(LEAVES + i);
      return Some(FindCollision(h, mem, mem', LEAVES, 1, LEAVES + i));
    }
    SameLeavesSameMemory(mem, mem');
    return None;
  }
}
