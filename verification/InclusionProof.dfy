/**
 Inclusion proofs of 28 nodes: the leaf that holds an address, then the siblings
 on its branch from the leaf up to the children of the root.
 */
module InclusionProof {
  import opened Words
  import opened Merkle
  import opened FlatMemory

  function LeafIndex(addr: Word): nat {
    LEAVES + addr / 32
  }

  // The node on the branch of `addr` that lies `depth` levels below the root.
  function BranchNode(addr: Word, depth: nat): nat
    requires depth <= 32
  {
    ShiftRight(WORD_RANGE + addr, 32 - depth)
  }

  lemma LeafIndexIsBranchNode(addr: Word)
    ensures BranchNode(addr, 27) == LeafIndex(addr)
  {
    var x := WORD_RANGE + addr;
    assert ShiftRight(x, 5) == ShiftRight(x / 2 / 2, 3);
    assert ShiftRight(x / 2 / 2, 3) == ShiftRight(x / 2 / 2 / 2 / 2, 1);
    assert x / 2 / 2 / 2 / 2 / 2 == x / 32;
  }

  lemma BranchNodeParent(addr: Word, depth: nat)
    requires depth < 32
    ensures BranchNode(addr, depth) == BranchNode(addr, depth + 1) / 2
  {
    ShiftRightNext(WORD_RANGE + addr, 31 - depth);
  }

  lemma {:induction false} BranchNodeRange(addr: Word, depth: nat)
    requires depth <= 32
    ensures Pow2(depth) <= BranchNode(addr, depth) < 2 * Pow2(depth)
    decreases 32 - depth
  {
    if depth == 32 {
      WordBits();
    } else {
      BranchNodeRange(addr, depth + 1);
      BranchNodeParent(addr, depth);
    }
  }

  lemma {:induction false} BranchNodeAbove(addr: Word, depth: nat)
    requires depth <= 27
    ensures Above(BranchNode(addr, depth), LeafIndex(addr))
    ensures Pow2(depth) <= BranchNode(addr, depth) < 2 * Pow2(depth)
    ensures depth == 27 ==> BranchNode(addr, depth) == LeafIndex(addr)
    ensures 1 <= BranchNode(addr, depth) < 2 * LEAVES && (depth < 27 ==> BranchNode(addr, depth) < LEAVES)
    decreases 27 - depth
  {
    BranchNodeRange(addr, depth);
    LeafIndexIsBranchNode(addr);
    if depth < 27 {
      BranchNodeAbove(addr, depth + 1);
      BranchNodeParent(addr, depth);
      assert Above(BranchNode(addr, depth), BranchNode(addr, depth + 1));
      AboveTransitive(BranchNode(addr, depth), BranchNode(addr, depth + 1), LeafIndex(addr));
    }
  }

  // Which child continues the branch is the address bit the code tests.
  lemma BranchStep(addr: Word, depth: nat)
    requires depth < 27
    ensures BranchNode(addr, depth + 1)
         == 2 * BranchNode(addr, depth) + if ShiftRight(addr, 31 - depth) % 2 == 1 then 1 else 0
  {
    BranchNodeParent(addr, depth);
    WordBits();
    ShiftRightTop(32, addr, 31 - depth);
    assert Pow2(depth + 1) % 2 == 0;
  }

  lemma BranchTop(addr: Word)
    ensures BranchNode(addr, 0) == 1
  {
    BranchNodeRange(addr, 0);
  }

  lemma SiblingsAtTop(h: HashFn, mem: Flat, g: nat)
    requires 1 <= g < 2 * LEAVES
    ensures Siblings(h, mem, LEAVES, g, g) == []
  {
  }

  function ProofOf(h: HashFn, mem: Flat, addr: Word): seq<Hash> {
    AboveOne(LeafIndex(addr));
    [Node(h, mem, LeafIndex(addr))] + Siblings(h, mem, LEAVES, LeafIndex(addr), 1)
  }

  function LeafAt(mem: Flat, addr: Word): Hash {
    Leaf(mem, LEAVES, addr / 32)
  }

  lemma ProofShape(h: HashFn, mem: Flat, addr: Word)
    ensures Above(1, LeafIndex(addr))
    ensures ProofOf(h, mem, addr) == [Node(h, mem, LeafIndex(addr))] + Siblings(h, mem, LEAVES, LeafIndex(addr), 1)
    ensures |ProofOf(h, mem, addr)| == 28
  {
    AboveOne(LeafIndex(addr));
    assert Pow2(27) == LEAVES by { TreeSizes(); }
    BranchFolds(h, mem, LEAVES, LeafIndex(addr), 27);
  }

  /** Every proof starts with the leaf of the address and folds, along address bits 5 to 31, to the root. */
  lemma ProofFolds(h: HashFn, mem: Flat, addr: Word)
    ensures var p := ProofOf(h, mem, addr);
      |p| == 28 && p[0] == LeafAt(mem, addr) && Fold(h, p[0], p[1..], addr / 32) == Root(h, mem)
  {
    AboveOne(LeafIndex(addr));
    assert Pow2(27) == LEAVES by { TreeSizes(); }
    BranchFolds(h, mem, LEAVES, LeafIndex(addr), 27);
    assert ProofOf(h, mem, addr)[1..] == Siblings(h, mem, LEAVES, LeafIndex(addr), 1);
  }

  /** The siblings handed out before a write, folded from the leaf after it, give the root after it. */
  lemma WriteRefolds(h: HashFn, mem: Flat, addr: Word, v: Word)
    requires Aligned(addr)
    ensures var p := ProofOf(h, mem, addr); var mem' := WithWord(mem, addr, v);
      |p| == 28 && Fold(h, LeafAt(mem', addr), p[1..], addr / 32) == Root(h, mem')
  {
    WriteIsLocal(mem, addr, v);
    ProofShape(h, mem, addr);
    assert Pow2(27) == LEAVES by { TreeSizes(); }
    RefoldGivesNewRoot(h, mem, WithWord(mem, addr, v), 27, addr / 32);
    assert ProofOf(h, mem, addr)[1..] == Siblings(h, mem, LEAVES, LeafIndex(addr), 1);
  }

  // ----- The proof as bytes -----

  function Concat(hs: seq<Hash>): seq<Byte> {
    if hs == [] then [] else hs[0] + Concat(hs[1..])
  }

  lemma ConcatEmpty()
    ensures Concat([]) == []
  {
  }

  lemma {:induction false} ConcatSnoc(hs: seq<Hash>, x: Hash)
    ensures Concat(hs + [x]) == Concat(hs) + x
  {
    if hs == [] {
      assert (hs + [x])[1..] == [];
    } else {
      ConcatSnoc(hs[1..], x);
      assert (hs + [x])[1..] == hs[1..] + [x];
    }
  }

  /** Node i of the proof is bytes 32i to 32i+32. */
  lemma {:induction false} ConcatAt(hs: seq<Hash>, i: nat)
    requires i < |hs|
    ensures |Concat(hs)| == 32 * |hs| && Concat(hs)[32 * i..32 * i + 32] == hs[i]
    decreases |hs|
  {
    var rest := Concat(hs[1..]);
    if |hs| > 1 {
      ConcatAt(hs[1..], if i > 0 then i - 1 else 0);
    }
    if i > 0 {
      assert Concat(hs)[32 * i..32 * i + 32] == rest[32 * (i - 1)..32 * (i - 1) + 32];
    }
  }
}
