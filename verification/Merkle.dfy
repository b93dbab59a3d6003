/**
 The naive Merkle tree that the VM memory commits to.  Nodes are named by their
 generalized index: 1 is the root, 2g and 2g+1 are the children of g, and the
 leaves of a tree with n leaves are n .. 2n-1.  Nothing is assumed about the
 hash function.
 */
module Merkle {
  import opened Words
  import opened Wrappers

  type Hash = h: seq<Byte> | |h| == 32 witness seq(32, i => 0)
  type HashFn = (Hash, Hash) -> Hash

  // Data of n leaves of 32 bytes each.
  predicate Leaves(data: seq<Byte>, n: nat) {
    n >= 1 && |data| == 32 * n
  }

  function Leaf(data: seq<Byte>, n: nat, i: nat): Hash
    requires Leaves(data, n) && i < n
  {
    data[32 * i..32 * i + 32]
  }

  function Tree(h: HashFn, data: seq<Byte>, n: nat, g: nat): Hash
    requires Leaves(data, n) && 1 <= g < 2 * n
    decreases |data|, 2 * n - g
  {
    if g >= n then Leaf(data, n, g - n)
    else h(Tree(h, data, n, 2 * g), Tree(h, data, n, 2 * g + 1))
  }

  // g is x or one of the nodes on the path from x up to the root.
  predicate Above(g: nat, x: nat) {
    g == x || (g < x && Above(g, x / 2))
  }

  lemma {:induction false} AboveLe(f: nat, g: nat)
    requires Above(f, g)
    ensures f <= g
  {
  }

  lemma {:induction false} AboveChild(g: nat, x: nat)
    requires 1 <= g && Above(g, x) && g != x
    ensures Above(2 * g, x) || Above(2 * g + 1, x)
    decreases x
  {
    if g != x / 2 {
      AboveChild(g, x / 2);
    }
  }

  lemma {:induction false} AboveParent(g: nat, x: nat)
    requires 1 <= g && (Above(2 * g, x) || Above(2 * g + 1, x))
    ensures Above(g, x)
    decreases x
  {
    if x / 2 != g {
      AboveParent(g, x / 2);
    }
  }

  lemma {:induction false} AboveTransitive(f: nat, g: nat, x: nat)
    requires Above(f, g) && Above(g, x)
    ensures Above(f, x)
    decreases x
  {
    if g != x {
      AboveTransitive(f, g, x / 2);
    }
  }

  // The nodes above x are totally ordered: of two of them the smaller one is above the other.
  lemma {:induction false} AboveLinear(f: nat, g: nat, x: nat)
    requires Above(f, x) && Above(g, x) && f <= g
    ensures Above(f, g)
    decreases x
  {
    if g != x {
      AboveLinear(f, g, x / 2);
    }
  }

  // A node depends on the leaves below it only.
  lemma {:induction false} TreeDependsOnLeaves(h: HashFn, data: seq<Byte>, data': seq<Byte>, n: nat, g: nat)
    requires Leaves(data, n) && Leaves(data', n) && 1 <= g < 2 * n
    requires forall i :: 0 <= i < n && Above(g, n + i) ==> Leaf(data, n, i) == Leaf(data', n, i)
    ensures Tree(h, data, n, g) == Tree(h, data', n, g)
    decreases 2 * n - g
  {
    if g < n {
      forall i | 0 <= i < n && (Above(2 * g, n + i) || Above(2 * g + 1, n + i))
        ensures Leaf(data, n, i) == Leaf(data', n, i)
      {
        AboveParent(g, n + i);
      }
      TreeDependsOnLeaves(h, data, data', n, 2 * g);
      TreeDependsOnLeaves(h, data, data', n, 2 * g + 1);
    } else {
      assert Above(g, n + (g - n));
    }
  }

  // Two data strings that differ at most in leaf i.
  predicate SameLeavesBut(data: seq<Byte>, data': seq<Byte>, n: nat, i: nat)
    requires Leaves(data, n) && Leaves(data', n)
  {
    forall j :: 0 <= j < n && j != i ==> Leaf(data, n, j) == Leaf(data', n, j)
  }

  lemma TreeFrame(h: HashFn, data: seq<Byte>, data': seq<Byte>, n: nat, i: nat, g: nat)
    requires Leaves(data, n) && Leaves(data', n) && i < n && 1 <= g < 2 * n
    requires SameLeavesBut(data, data', n, i)
    requires !Above(g, n + i)
    ensures Tree(h, data, n, g) == Tree(h, data', n, g)
  {
    TreeDependsOnLeaves(h, data, data', n, g);
  }

  // ----- All-zero subtrees -----

  function ZeroHash(h: HashFn, level: nat): Hash {
    if level == 0 then Zeros(32) else h(ZeroHash(h, level - 1), ZeroHash(h, level - 1))
  }

  // bits.Len64
  function BitLen(g: nat): nat {
    if g == 0 then 0 else 1 + BitLen(g / 2)
  }

  lemma {:induction false} BitLenBounds(g: nat)
    requires g >= 1
    ensures BitLen(g) >= 1 && Pow2(BitLen(g) - 1) <= g < Pow2(BitLen(g))
  {
    if g > 1 {
      BitLenBounds(g / 2);
    }
  }

  lemma {:induction false} Pow2Order(a: nat, b: nat)
    ensures a < b ==> 2 * Pow2(a) <= Pow2(b)
    decreases b
  {
    if a + 1 < b {
      Pow2Order(a, b - 1);
    }
  }

  // The bit length is the level counted from the root: it is the only l with 2^(l-1) <= g < 2^l.
  lemma BitLenIs(g: nat, l: nat)
    requires l >= 1 && Pow2(l - 1) <= g < Pow2(l)
    ensures BitLen(g) == l
  {
    BitLenBounds(g);
    Pow2Order(BitLen(g), l - 1);
    Pow2Order(l, BitLen(g) - 1);
  }

  lemma BitLenAtMost(g: nat, m: nat)
    requires 1 <= g < 2 * Pow2(m)
    ensures BitLen(g) <= m + 1 && (g < Pow2(m) ==> BitLen(g) <= m)
  {
    BitLenBounds(g);
    Pow2Order(m, BitLen(g) - 1);
  }

  lemma {:induction false} ZeroTree(h: HashFn, data: seq<Byte>, m: nat, n: nat, g: nat)
    requires n == Pow2(m) && Leaves(data, n) && 1 <= g < 2 * n
    requires forall i :: 0 <= i < n && Above(g, n + i) ==> Leaf(data, n, i) == Zeros(32)
    ensures BitLen(g) <= m + 1 && Tree(h, data, n, g) == ZeroHash(h, m + 1 - BitLen(g))
    decreases 2 * n - g
  {
    hide BitLen, Above, Leaf;
    BitLenAtMost(g, m);
    if g < n {
      forall i | 0 <= i < n && (Above(2 * g, n + i) || Above(2 * g + 1, n + i))
        ensures Leaf(data, n, i) == Zeros(32)
      {
        AboveParent(g, n + i);
      }
      ZeroTree(h, data, m, n, 2 * g);
      ZeroTree(h, data, m, n, 2 * g + 1);
      BitLenOfChildren(g);
    } else {
      BitLenIs(g, m + 1);
      AboveItself(g);
      assert Above(g, n + (g - n));
    }
  }

  lemma BitLenOfChildren(g: nat)
    requires g >= 1
    ensures BitLen(2 * g) == BitLen(g) + 1 && BitLen(2 * g + 1) == BitLen(g) + 1
  {
  }

  lemma AboveItself(g: nat)
    ensures Above(g, g)
  {
  }

  // ----- Inclusion proofs -----

  function Sibling(g: nat): nat
    requires g >= 2
  {
    if g % 2 == 0 then g + 1 else g - 1
  }

  // The siblings met on the way from g up to, but not beyond, the node `top` above it.
  function Siblings(h: HashFn, data: seq<Byte>, n: nat, g: nat, top: nat): seq<Hash>
    requires Leaves(data, n) && 1 <= top && g < 2 * n && Above(top, g)
    decreases g
  {
    if g == top then []
    else [Tree(h, data, n, Sibling(g))] + Siblings(h, data, n, g / 2, top)
  }

  // Hash a node up a branch; bit j of `path` says on which side the j-th sibling lies.
  function Fold(h: HashFn, node: Hash, sibs: seq<Hash>, path: nat): Hash
    decreases |sibs|
  {
    if sibs == [] then node
    else Fold(h, if path % 2 == 1 then h(sibs[0], node) else h(node, sibs[0]), sibs[1..], path / 2)
  }

  // The branch from any node folds to the root.
  lemma {:induction false} BranchFolds(h: HashFn, data: seq<Byte>, n: nat, g: nat, d: nat)
    requires Leaves(data, n) && Pow2(d) <= g < 2 * Pow2(d) && g < 2 * n && Above(1, g)
    ensures |Siblings(h, data, n, g, 1)| == d
    ensures Fold(h, Tree(h, data, n, g), Siblings(h, data, n, g, 1), g - Pow2(d)) == Tree(h, data, n, 1)
    decreases d
  {
    if d > 0 {
      var sibs := Siblings(h, data, n, g, 1);
      assert sibs[0] == Tree(h, data, n, Sibling(g));
      assert sibs[1..] == Siblings(h, data, n, g / 2, 1);
      assert g / 2 < n;
      assert g == 2 * (g / 2) + g % 2;
      assert (g - Pow2(d)) / 2 == g / 2 - Pow2(d - 1);
      BranchFolds(h, data, n, g / 2, d - 1);
    }
  }

  lemma {:induction false} AboveOne(g: nat)
    requires g >= 1
    ensures Above(1, g)
  {
    if g > 1 {
      AboveOne(g / 2);
    }
  }

  // Splitting off the last sibling: what the recursion over a branch appends at each level.
  lemma {:induction false} SiblingsSnoc(h: HashFn, data: seq<Byte>, n: nat, g: nat, self: nat)
    requires Leaves(data, n) && 2 <= self && g < 2 * n && Above(self, g)
    ensures Above(self / 2, g) && Sibling(self) < 2 * n
    ensures Siblings(h, data, n, g, self / 2)
         == Siblings(h, data, n, g, self) + [Tree(h, data, n, Sibling(self))]
    decreases g
  {
    if g == self {
      assert Siblings(h, data, n, g / 2, self / 2) == [];
    } else {
      SiblingsSnoc(h, data, n, g / 2, self);
    }
  }

  // A sibling on the branch of leaf i does not itself lie above leaf i.
  lemma {:induction false} SiblingOffBranch(g: nat, x: nat)
    requires g >= 2 && Above(g, x)
    ensures !Above(Sibling(g), x)
  {
    if Above(Sibling(g), x) {
      if g < Sibling(g) {
        AboveLinear(g, Sibling(g), x);
      } else {
        AboveLinear(Sibling(g), g, x);
      }
    }
  }

  // The branch of a leaf does not depend on that leaf, so it is the same before and after a write to it.
  lemma {:induction false} BranchUnchanged(h: HashFn, data: seq<Byte>, data': seq<Byte>, n: nat, i: nat, g: nat)
    requires Leaves(data, n) && Leaves(data', n) && i < n && 1 <= g < 2 * n
    requires SameLeavesBut(data, data', n, i)
    requires Above(g, n + i) && Above(1, g)
    ensures Siblings(h, data, n, g, 1) == Siblings(h, data', n, g, 1)
    decreases g
  {
    if g > 1 {
      SiblingOffBranch(g, n + i);
      TreeFrame(h, data, data', n, i, Sibling(g));
      assert Above(g / 2, g);
      AboveTransitive(g / 2, g, n + i);
      BranchUnchanged(h, data, data', n, i, g / 2);
    }
  }

  // Folding the old branch from the new leaf gives the new root.
  lemma RefoldGivesNewRoot(h: HashFn, data: seq<Byte>, data': seq<Byte>, m: nat, i: nat)
    requires Leaves(data, Pow2(m)) && Leaves(data', Pow2(m)) && i < Pow2(m)
    requires SameLeavesBut(data, data', Pow2(m), i)
    ensures Above(1, Pow2(m) + i)
    ensures Fold(h, Leaf(data', Pow2(m), i), Siblings(h, data, Pow2(m), Pow2(m) + i, 1), i)
         == Tree(h, data', Pow2(m), 1)
  {
    AboveOne(Pow2(m) + i);
    BranchUnchanged(h, data, data', Pow2(m), i, Pow2(m) + i);
    BranchFolds(h, data', Pow2(m), Pow2(m) + i, m);
  }

  // ----- Binding -----

  // Two different inputs of the hash function with one output.
  datatype Collision = Collision(left: Hash, right: Hash, left': Hash, right': Hash) {
    predicate Breaks(h: HashFn) {
      (left, right) != (left', right') && h(left, right) == h(left', right')
    }
  }

  // The children of a node in two trees.
  function Children(h: HashFn, data: seq<Byte>, data': seq<Byte>, n: nat, p: nat): Collision
    requires Leaves(data, n) && Leaves(data', n) && 1 <= p < n
  {
    Collision(Tree(h, data, n, 2 * p), Tree(h, data, n, 2 * p + 1),
              Tree(h, data', n, 2 * p), Tree(h, data', n, 2 * p + 1))
  }

  /** A collision among the nodes of two trees: some node hashes different children to one value. */
  ghost predicate CollidesIn(h: HashFn, data: seq<Byte>, data': seq<Byte>, n: nat, c: Collision)
    requires Leaves(data, n) && Leaves(data', n)
  {
    c.Breaks(h) && exists p :: 1 <= p < n && c == Children(h, data, data', n, p)
  }

  /** Climb from a node at which two trees differ towards a node above it at which they agree.
      The first parent on which they agree again hashes two different pairs to one value. */
  function FindCollision(h: HashFn, data: seq<Byte>, data': seq<Byte>, n: nat, top: nat, g: nat): (c: Collision)
    requires Leaves(data, n) && Leaves(data', n) && 1 <= top && g < 2 * n && Above(top, g)
    requires Tree(h, data, n, g) != Tree(h, data', n, g)
    requires Tree(h, data, n, top) == Tree(h, data', n, top)
    ensures CollidesIn(h, data, data', n, c)
    decreases g
  {
    var p := g / 2;
    assert g == 2 * p || g == 2 * p + 1;
    if Tree(h, data, n, p) == Tree(h, data', n, p) then Children(h, data, data', n, p)
    else FindCollision(h, data, data', n, top, p)
  }

  // The leaves below a node are the same in both.
  predicate SameLeavesBelow(data: seq<Byte>, data': seq<Byte>, n: nat, g: nat)
    requires Leaves(data, n) && Leaves(data', n)
  {
    forall i :: 0 <= i < n && Above(g, n + i) ==> Leaf(data, n, i) == Leaf(data', n, i)
  }

  /** Two subtrees have one hash if all leaves below are the same, and only then, unless a collision among their nodes
      is handed out. */
  lemma NodeBindsLeaves(h: HashFn, data: seq<Byte>, data': seq<Byte>, n: nat, g: nat)
    returns (broken: Option<Collision>)
    requires Leaves(data, n) && Leaves(data', n) && 1 <= g < 2 * n
    ensures SameLeavesBelow(data, data', n, g) ==> Tree(h, data, n, g) == Tree(h, data', n, g)
    ensures broken.Some? <==>
      Tree(h, data, n, g) == Tree(h, data', n, g) && !SameLeavesBelow(data, data', n, g)
    ensures broken.Some? ==> CollidesIn(h, data, data', n, broken.value)
  {
    if SameLeavesBelow(data, data', n, g) {
      TreeDependsOnLeaves(h, data, data', n, g);
      return None;
    }
    if Tree(h, data, n, g) != Tree(h, data', n, g) {
      return None;
    }
    var i: nat :| i < n && Above(g, n + i) && Leaf(data, n, i) != Leaf(data', n, i);
    return Some(FindCollision(h, data, data', n, g, n + i));
  }
}
