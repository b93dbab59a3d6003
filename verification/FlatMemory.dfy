/**
 What the sparse, cached memory stands for: a flat string of 2^32 bytes and the
 naive Merkle tree over its 2^27 leaves.  The facts here are about values only.
 */
module FlatMemory {
  import opened Words
  import opened Merkle
  import opened Page
  import opened Wrappers

  const PAGES := 0x10_0000    // MaxPageCount
  const LEAVES := 0x800_0000  // 2^27

  type Flat = m: seq<Byte> | |m| == WORD_RANGE witness seq(WORD_RANGE, i => 0)

  function PageOf(mem: Flat, k: nat): (p: seq<Byte>)
    requires k < PAGES
    ensures |p| == PAGE_SIZE
  {
    mem[PAGE_SIZE * k..PAGE_SIZE * k + PAGE_SIZE]
  }

  function Node(h: HashFn, mem: Flat, g: nat): Hash
    requires 1 <= g < 2 * LEAVES
  {
    Tree(h, mem, LEAVES, g)
  }

  function Root(h: HashFn, mem: Flat): Hash {
    Node(h, mem, 1)
  }

  predicate Aligned(addr: nat) {
    addr % 4 == 0
  }

  function WordAt(mem: Flat, addr: Word): Word
    requires Aligned(addr)
  {
    FromBytes(mem[addr..addr + 4])
  }

  function WithWord(mem: Flat, addr: Word, v: Word): Flat
    requires Aligned(addr)
  {
    mem[..addr] + ToBytes(v) + mem[addr + 4..]
  }

  lemma TreeSizes()
    ensures Pow2(7) == PAGE_LEAVES && Pow2(20) == PAGES && Pow2(27) == LEAVES && Pow2(28) == 2 * LEAVES
  {
    assert Pow2(7) == 128;
    assert Pow2(14) == 128 * Pow2(7);
    assert Pow2(21) == 128 * Pow2(14);
  }

  // Node g lies above page k.
  predicate Covers(g: nat, k: nat) {
    Above(g, PAGES + k)
  }

  // ----- Pages and leaves -----

  lemma LeafInPage(mem: Flat, i: nat)
    requires i < LEAVES
    ensures Leaf(mem, LEAVES, i) == Leaf(PageOf(mem, i / PAGE_LEAVES), PAGE_LEAVES, i % PAGE_LEAVES)
  {
    var k, r := i / PAGE_LEAVES, i % PAGE_LEAVES;
    assert mem[32 * i..32 * i + 32] == mem[PAGE_SIZE * k..PAGE_SIZE * k + PAGE_SIZE][32 * r..32 * r + 32];
  }

  lemma ShiftLeft7(x: nat)
    ensures ShiftLeft(x, 7) == PAGE_LEAVES * x
  {
    assert ShiftLeft(x, 1) == 2 * x;
    assert ShiftLeft(x, 3) == 4 * ShiftLeft(x, 1);
    assert ShiftLeft(x, 5) == 4 * ShiftLeft(x, 3);
    assert ShiftLeft(x, 7) == 4 * ShiftLeft(x, 5);
  }

  lemma ShiftLeftNext(x: nat, d: nat)
    ensures ShiftLeft(x, d + 1) == 2 * ShiftLeft(x, d)
  {
  }

  // A node inside a page, counted from the top of memory, is the same node counted from the page.
  lemma {:induction false} PageSubtree(h: HashFn, mem: Flat, k: nat, d: nat, r: nat)
    requires k < PAGES && d <= 7 && r < Pow2(d) && Pow2(7) == PAGE_LEAVES
    ensures 1 <= ShiftLeft(PAGES + k, d) + r < 2 * LEAVES && Pow2(d) + r < 2 * PAGE_LEAVES
    ensures Node(h, mem, ShiftLeft(PAGES + k, d) + r) == Tree(h, PageOf(mem, k), PAGE_LEAVES, Pow2(d) + r)
    decreases 7 - d
  {
    hide ShiftLeft, PageOf, Leaf, Above;
    if d == 7 {
      LeafOfPage(h, mem, k, r);
    } else {
      ShiftLeftNext(PAGES + k, d);
      PageSubtree(h, mem, k, d + 1, 2 * r);
      PageSubtree(h, mem, k, d + 1, 2 * r + 1);
    }
  }

  lemma LeafOfPage(h: HashFn, mem: Flat, k: nat, r: nat)
    requires k < PAGES && r < PAGE_LEAVES
    ensures LEAVES <= ShiftLeft(PAGES + k, 7) + r < 2 * LEAVES
    ensures Node(h, mem, ShiftLeft(PAGES + k, 7) + r) == Tree(h, PageOf(mem, k), PAGE_LEAVES, PAGE_LEAVES + r)
  {
    hide PageOf;
    ShiftLeft7(PAGES + k);
    assert ShiftLeft(PAGES + k, 7) + r == LEAVES + (PAGE_LEAVES * k + r);
    LeafInPage(mem, PAGE_LEAVES * k + r);
  }

  // A node at or below page level, split into its page and its place in the page.
  lemma SplitNode(g: nat)
    requires PAGES <= g < 2 * LEAVES
    ensures 21 <= BitLen(g) <= 28
    ensures var d := BitLen(g) - 21; var k := ShiftRight(g, d) % PAGES;
      && g == ShiftLeft(PAGES + k, d) + LowBits(g, d) && LowBits(g, d) < Pow2(d)
  {
    hide ShiftLeft, ShiftRight, LowBits, BitLen;
    LevelOfNode(g);
    var d := BitLen(g) - 21;
    var top := Pow2(d + 20);
    ShiftRightTop(d + 20, g - top, d);
    ShiftRightBound(g - top, d + 20, d);
    SplitBits(g, d);
    assert ShiftRight(g, d) % PAGES == ShiftRight(g, d) - PAGES;
  }

  lemma LevelOfNode(g: nat)
    requires PAGES <= g < 2 * LEAVES
    ensures 21 <= BitLen(g) <= 28 && Pow2(20) == PAGES
    ensures Pow2(BitLen(g) - 1) <= g < 2 * Pow2(BitLen(g) - 1)
  {
    TreeSizes();
    BitLenAtMost(g, 27);
    BitLenBounds(g);
    Pow2Order(BitLen(g), 20);
  }

  // The page, and the index in that page, of a node at or below page level.
  lemma NodeInPage(h: HashFn, mem: Flat, g: nat)
    requires PAGES <= g < 2 * LEAVES
    ensures 21 <= BitLen(g) <= 28
    ensures var d := BitLen(g) - 21; var k := ShiftRight(g, d) % PAGES; var i := Pow2(d) + LowBits(g, d);
      && 1 <= i < 2 * PAGE_LEAVES && BitLen(i) == BitLen(g) - 20
      && Node(h, mem, g) == Tree(h, PageOf(mem, k), PAGE_LEAVES, i)
  {
    SplitNode(g);
    var d := BitLen(g) - 21;
    var k := ShiftRight(g, d) % PAGES;
    assert Pow2(7) == PAGE_LEAVES by { TreeSizes(); }
    PageSubtree(h, mem, k, d, LowBits(g, d));
    BitLenIs(Pow2(d) + LowBits(g, d), d + 1);
  }

  lemma NodeOfPage(g: nat, j: nat)
    requires PAGES <= g && j < PAGES && Covers(g, j)
    ensures g == PAGES + j && BitLen(g) == 21 && ShiftRight(g, 0) % PAGES == j
  {
    if g < PAGES + j {
      AboveLe(g, (PAGES + j) / 2);
    }
    TreeSizes();
    BitLenIs(g, 21);
  }

  // Above page level, the nodes above a leaf are the nodes above its page.
  lemma AboveLeafIsAbovePage(g: nat, i: nat)
    requires 1 <= g < 2 * PAGES && i < LEAVES
    ensures Above(g, LEAVES + i) == Covers(g, i / PAGE_LEAVES)
  {
    var x1 := (LEAVES + i) / 2;
    var x2 := x1 / 2;
    var x3 := x2 / 2;
    var x4 := x3 / 2;
    var x5 := x4 / 2;
    var x6 := x5 / 2;
    assert x6 / 2 == PAGES + i / PAGE_LEAVES;
    assert Above(g, LEAVES + i) == Above(g, x1) == Above(g, x2) == Above(g, x3);
    assert Above(g, x3) == Above(g, x4) == Above(g, x5) == Above(g, x6);
  }

  // ----- The map of interior hashes above the pages -----

  // Absent: nothing allocated below.  None: allocated below, hash not known.  Some: the hash.
  type Nodes = map<nat, Option<Hash>>

  ghost predicate AllocatedAbove(nodes: Nodes, pages: set<nat>) {
    forall k, g :: k in pages && 1 <= g && Covers(g, k) ==> g in nodes
  }

  ghost predicate NodesCoherent(h: HashFn, mem: Flat, nodes: Nodes) {
    forall g :: g in nodes && nodes[g].Some? ==>
      1 <= g < PAGES && nodes[g].value == Node(h, mem, g)
  }

  // No valid hash lies above a page whose own root is not valid.
  ghost predicate NoneAboveDirty(nodes: Nodes, dirty: set<nat>) {
    forall k, g :: k in dirty && g in nodes && Covers(g, k) ==> nodes[g].None?
  }

  ghost predicate NodesOk(h: HashFn, mem: Flat, nodes: Nodes, pages: set<nat>, dirty: set<nat>) {
    && (forall k :: k in pages ==> k < PAGES)
    && dirty <= pages
    && AllocatedAbove(nodes, pages)
    && NodesCoherent(h, mem, nodes)
    && NoneAboveDirty(nodes, dirty)
  }

  // What the map of hashes keeps through loading, whatever becomes of the hashes in it.
  ghost predicate NodesLoose(nodes: Nodes, pages: set<nat>, dirty: set<nat>) {
    (forall k :: k in pages ==> k < PAGES) && dirty <= pages && AllocatedAbove(nodes, pages)
  }

  lemma NodesOkSplit(h: HashFn, mem: Flat, nodes: Nodes, pages: set<nat>, dirty: set<nat>)
    ensures NodesOk(h, mem, nodes, pages, dirty) <==>
      NodesLoose(nodes, pages, dirty) && NodesCoherent(h, mem, nodes) && NoneAboveDirty(nodes, dirty)
  {
    hide AllocatedAbove, NodesCoherent, NoneAboveDirty;
  }

  ghost predicate ZeroElsewhere(mem: Flat, pages: set<nat>) {
    forall k: nat :: k < PAGES && k !in pages ==> PageOf(mem, k) == Zeros(PAGE_SIZE)
  }

  // Invalidate a node and everything above it.
  function Cleared(nodes: Nodes, g: nat): Nodes
    decreases g
  {
    if g == 0 then nodes else Cleared(nodes[g := None], g / 2)
  }

  lemma {:induction false} ClearedEntries(nodes: Nodes, g: nat)
    ensures forall f :: f in Cleared(nodes, g) <==> f in nodes || (1 <= f && Above(f, g))
    ensures forall f :: f in Cleared(nodes, g) ==>
      Cleared(nodes, g)[f] == if 1 <= f && Above(f, g) then None else nodes[f]
    decreases g
  {
    if g > 0 {
      ClearedEntries(nodes[g := None], g / 2);
      assert forall f :: Above(f, g) <==> f == g || Above(f, g / 2) by {
        forall f ensures Above(f, g) <==> f == g || Above(f, g / 2) {
          if Above(f, g / 2) { AboveLe(f, g / 2); }
        }
      }
    }
  }

  // A subtree that no allocated page touches hashes like zeroes.
  lemma AbsentNodeIsZero(h: HashFn, mem: Flat, pages: set<nat>, g: nat)
    requires 1 <= g < 2 * PAGES && ZeroElsewhere(mem, pages)
    requires forall k :: k in pages ==> !Covers(g, k)
    ensures BitLen(g) <= 28 && Node(h, mem, g) == ZeroHash(h, 28 - BitLen(g))
  {
    forall i | 0 <= i < LEAVES && Above(g, LEAVES + i)
      ensures Leaf(mem, LEAVES, i) == Zeros(32)
    {
      AboveLeafIsAbovePage(g, i);
      LeafInPage(mem, i);
    }
    assert LEAVES == Pow2(27) by { TreeSizes(); }
    ZeroTree(h, mem, 27, LEAVES, g);
  }

  lemma AbsentPageIsZero(h: HashFn, g: nat)
    requires 1 <= g < 2 * PAGE_LEAVES
    ensures BitLen(g) <= 8 && Tree(h, Zeros(PAGE_SIZE), PAGE_LEAVES, g) == ZeroHash(h, 8 - BitLen(g))
  {
    TreeSizes();
    ZeroTree(h, Zeros(PAGE_SIZE), 7, PAGE_LEAVES, g);
  }

  // ----- Writing a word -----

  // A slice that does not meet the written word is unchanged.
  lemma SliceUntouched(mem: Flat, addr: Word, v: Word, a: nat, b: nat)
    requires Aligned(addr) && a <= b <= WORD_RANGE
    requires b <= addr || addr + 4 <= a
    ensures WithWord(mem, addr, v)[a..b] == mem[a..b]
  {
    var mem' := WithWord(mem, addr, v);
    assert forall i :: a <= i < b ==> mem'[i] == mem[i];
  }

  lemma WriteIsLocal(mem: Flat, addr: Word, v: Word)
    requires Aligned(addr)
    ensures SameLeavesBut(mem, WithWord(mem, addr, v), LEAVES, addr / 32)
    ensures forall k :: 0 <= k < PAGES && k != addr / PAGE_SIZE ==> PageOf(WithWord(mem, addr, v), k) == PageOf(mem, k)
  {
    forall j | 0 <= j < LEAVES && j != addr / 32
      ensures Leaf(mem, LEAVES, j) == Leaf(WithWord(mem, addr, v), LEAVES, j)
    {
      AlignedInLeaf(addr);
      SliceUntouched(mem, addr, v, 32 * j, 32 * j + 32);
    }
    forall k | 0 <= k < PAGES && k != addr / PAGE_SIZE
      ensures PageOf(WithWord(mem, addr, v), k) == PageOf(mem, k)
    {
      AlignedInPage(addr);
      SliceUntouched(mem, addr, v, PAGE_SIZE * k, PAGE_SIZE * k + PAGE_SIZE);
    }
  }

  lemma AlignedInLeaf(addr: Word)
    requires Aligned(addr)
    ensures addr == 32 * (addr / 32) + addr % 32 && addr % 32 + 4 <= 32
  {
    assert addr % 32 % 4 == 0;
  }

  lemma AlignedInPage(addr: Word)
    requires Aligned(addr)
    ensures addr / PAGE_SIZE < PAGES && addr == PAGE_SIZE * (addr / PAGE_SIZE) + addr % PAGE_SIZE
    ensures addr % PAGE_SIZE + 4 <= PAGE_SIZE
  {
    assert addr % PAGE_SIZE % 4 == 0;
  }

  lemma WordInPage(mem: Flat, addr: Word)
    requires Aligned(addr)
    ensures addr % PAGE_SIZE + 4 <= PAGE_SIZE
    ensures WordAt(mem, addr) == FromBytes(PageOf(mem, addr / PAGE_SIZE)[addr % PAGE_SIZE..addr % PAGE_SIZE + 4])
  {
    AlignedInPage(addr);
    SliceOfSlice(mem, PAGE_SIZE * (addr / PAGE_SIZE), PAGE_SIZE, addr % PAGE_SIZE, 4);
  }

  lemma SliceOfSlice(s: seq<Byte>, a: nat, n: nat, b: nat, m: nat)
    requires b + m <= n && a + n <= |s|
    ensures s[a..a + n][b..b + m] == s[a + b..a + b + m]
  {
    var u, w := s[a..a + n][b..b + m], s[a + b..a + b + m];
    assert forall i :: 0 <= i < m ==> u[i] == w[i];
  }

  lemma WriteInPage(mem: Flat, addr: Word, v: Word)
    requires Aligned(addr)
    ensures var p, a := PageOf(mem, addr / PAGE_SIZE), addr % PAGE_SIZE;
      a + 4 <= PAGE_SIZE && PageOf(WithWord(mem, addr, v), addr / PAGE_SIZE) == p[..a] + ToBytes(v) + p[a + 4..]
  {
    var k, a := addr / PAGE_SIZE, addr % PAGE_SIZE;
    var mem' := WithWord(mem, addr, v);
    AlignedInPage(addr);
    var p := PageOf(mem, k);
    var q := p[..a] + ToBytes(v) + p[a + 4..];
    forall i | 0 <= i < PAGE_SIZE
      ensures PageOf(mem', k)[i] == q[i]
    {
      assert PageOf(mem', k)[i] == mem'[PAGE_SIZE * k + i];
    }
  }

  lemma WriteInLeaf(data: seq<Byte>, data': seq<Byte>, a: nat, v: Word)
    requires |data| == |data'| == PAGE_SIZE && a + 4 <= PAGE_SIZE && Aligned(a)
    requires data' == data[..a] + ToBytes(v) + data[a + 4..]
    ensures SameLeavesBut(data, data', PAGE_LEAVES, a / 32)
  {
    AlignedInLeaf(a);
    forall j | 0 <= j < PAGE_LEAVES && j != a / 32
      ensures Leaf(data, PAGE_LEAVES, j) == Leaf(data', PAGE_LEAVES, j)
    {
      assert 32 * j + 32 <= a || a + 4 <= 32 * j;
      assert forall i :: 32 * j <= i < 32 * j + 32 ==> data'[i] == data[i];
    }
  }

  lemma WriteKeepsTree(h: HashFn, data: seq<Byte>, data': seq<Byte>, a: nat, v: Word, j: nat)
    requires |data| == |data'| == PAGE_SIZE && a + 4 <= PAGE_SIZE && Aligned(a)
    requires data' == data[..a] + ToBytes(v) + data[a + 4..]
    requires 1 <= j < 2 * PAGE_LEAVES && !Above(j, PAGE_LEAVES + a / 32)
    ensures Tree(h, data', PAGE_LEAVES, j) == Tree(h, data, PAGE_LEAVES, j)
  {
    WriteInLeaf(data, data', a, v);
    TreeFrame(h, data, data', PAGE_LEAVES, a / 32, j);
  }

  // A write to a dirty page leaves every valid interior hash valid.
  lemma WriteKeepsNodes(h: HashFn, mem: Flat, nodes: Nodes, pages: set<nat>, dirty: set<nat>, addr: Word, v: Word)
    requires Aligned(addr) && NodesOk(h, mem, nodes, pages, dirty)
    requires addr / PAGE_SIZE in dirty
    ensures NodesOk(h, WithWord(mem, addr, v), nodes, pages, dirty)
  {
    WriteIsLocal(mem, addr, v);
    PageChangeKeepsNodes(h, mem, WithWord(mem, addr, v), nodes, pages, dirty, addr / PAGE_SIZE);
  }

  // Allocating a zero page, with everything above it cleared, keeps the map of hashes right.
  lemma AllocKeepsNodes(h: HashFn, mem: Flat, nodes: Nodes, pages: set<nat>, dirty: set<nat>, k: nat)
    requires NodesOk(h, mem, nodes, pages, dirty) && k < PAGES
    ensures NodesOk(h, mem, Cleared(nodes, PAGES + k), pages + {k}, dirty + {k})
  {
    ClearedEntries(nodes, PAGES + k);
  }

  lemma AllocKeepsLoose(nodes: Nodes, pages: set<nat>, dirty: set<nat>, k: nat)
    requires NodesLoose(nodes, pages, dirty) && k < PAGES
    ensures NodesLoose(Cleared(nodes, PAGES + k), pages + {k}, dirty + {k})
  {
    ClearedEntries(nodes, PAGES + k);
  }

  // Once everything above a page is cleared, the page itself may become dirty.
  lemma ClearedKeepsNodes(h: HashFn, mem: Flat, nodes: Nodes, pages: set<nat>, dirty: set<nat>, k: nat)
    requires NodesOk(h, mem, nodes, pages, dirty) && k in pages
    ensures NodesOk(h, mem, Cleared(nodes, PAGES + k), pages, dirty + {k})
  {
    ClearedEntries(nodes, PAGES + k);
  }

  lemma ClearedKeepsLoose(nodes: Nodes, pages: set<nat>, dirty: set<nat>, k: nat)
    requires NodesLoose(nodes, pages, dirty) && k in pages
    ensures NodesLoose(Cleared(nodes, PAGES + k), pages, dirty + {k})
  {
    ClearedEntries(nodes, PAGES + k);
  }

  // No valid hash above page k.
  ghost predicate Uncached(nodes: Nodes, k: nat) {
    forall g :: 1 <= g && g in nodes && Covers(g, k) ==> nodes[g].None?
  }

  predicate SamePagesBut(mem: Flat, mem': Flat, k: nat) {
    forall j :: 0 <= j < PAGES && j != k ==> PageOf(mem, j) == PageOf(mem', j)
  }

  lemma SameSubtree(h: HashFn, mem: Flat, mem': Flat, g: nat)
    requires 1 <= g < PAGES
    requires forall k: nat :: k < PAGES && Covers(g, k) ==> PageOf(mem, k) == PageOf(mem', k)
    ensures Node(h, mem, g) == Node(h, mem', g)
  {
    forall i | 0 <= i < LEAVES && Above(g, LEAVES + i)
      ensures Leaf(mem, LEAVES, i) == Leaf(mem', LEAVES, i)
    {
      AboveLeafIsAbovePage(g, i);
      LeafInPage(mem, i);
      LeafInPage(mem', i);
    }
    TreeDependsOnLeaves(h, mem, mem', LEAVES, g);
  }

  // Any change confined to a dirty page leaves every valid interior hash valid.
  lemma PageChangeKeepsNodes(h: HashFn, mem: Flat, mem': Flat, nodes: Nodes, pages: set<nat>, dirty: set<nat>, k: nat)
    requires NodesOk(h, mem, nodes, pages, dirty) && k in dirty && SamePagesBut(mem, mem', k)
    ensures NodesOk(h, mem', nodes, pages, dirty)
  {
    hide Node;
    forall g | g in nodes && nodes[g].Some?
      ensures 1 <= g < PAGES && nodes[g].value == Node(h, mem', g)
    {
      SameSubtree(h, mem, mem', g);
    }
  }

  // ----- Changes below hashes that stay -----

  ghost predicate CoversAny(g: nat, ks: set<nat>) {
    exists k :: k in ks && Covers(g, k)
  }

  // The map after allocating these pages: everything above them is unknown, all else as before.
  ghost predicate Forgotten(nodes: Nodes, nodes': Nodes, added: set<nat>) {
    forall g ::
      && (g in nodes' <==> g in nodes || (1 <= g && CoversAny(g, added)))
      && (g in nodes' ==> nodes'[g] == if 1 <= g && CoversAny(g, added) then None else nodes[g])
  }

  lemma NothingForgotten(nodes: Nodes)
    ensures Forgotten(nodes, nodes, {})
  {
  }

  lemma ForgottenNext(nodes: Nodes, nodes': Nodes, added: set<nat>, k: nat)
    requires Forgotten(nodes, nodes', added)
    ensures Forgotten(nodes, Cleared(nodes', PAGES + k), added + {k})
  {
    ClearedEntries(nodes', PAGES + k);
    forall g ensures CoversAny(g, added + {k}) <==> CoversAny(g, added) || Covers(g, k) {
      if Covers(g, k) {
        assert k in added + {k};
      }
      if CoversAny(g, added) {
        var j :| j in added && Covers(g, j);
        assert j in added + {k};
      }
    }
  }

  // A valid hash above page k survives the allocation of the pages added.
  ghost predicate StaysCached(nodes: Nodes, added: set<nat>, k: nat) {
    exists g :: 1 <= g && g in nodes && nodes[g].Some? && Covers(g, k) && !CoversAny(g, added)
  }

  /** After a change of the touched pages, some of them newly allocated, the map of hashes has everything later
      operations rely on if and only if no valid hash above an old touched page survives. */
  lemma LoadKeepsNodesExactly(h: HashFn, mem: Flat, mem': Flat, nodes: Nodes, nodes': Nodes,
                              pages: set<nat>, dirty: set<nat>, touched: set<nat>)
    requires NodesOk(h, mem, nodes, pages, dirty) && Forgotten(nodes, nodes', touched - pages)
    requires NodesLoose(nodes', pages + touched, dirty + touched)
    requires forall k :: 0 <= k < PAGES && k !in touched ==> PageOf(mem, k) == PageOf(mem', k)
    ensures NodesOk(h, mem', nodes', pages + touched, dirty + touched) <==>
      forall k :: k in touched && k in pages ==> !StaysCached(nodes, touched - pages, k)
  {
    hide Node;
    var added := touched - pages;
    if forall k :: k in touched && k in pages ==> !StaysCached(nodes, added, k) {
      forall k, g | k in dirty + touched && g in nodes' && Covers(g, k) ensures nodes'[g].None? {
        NoneAboveLoaded(h, mem, nodes, nodes', pages, dirty, touched, k, g);
      }
      assert NoneAboveDirty(nodes', dirty + touched);
      forall g | g in nodes' && nodes'[g].Some? ensures 1 <= g < PAGES && nodes'[g].value == Node(h, mem', g) {
        assert g in nodes && nodes[g] == nodes'[g];
        SameSubtree(h, mem, mem', g);
      }
    } else {
      var k :| k in touched && k in pages && StaysCached(nodes, added, k);
      var g :| 1 <= g && g in nodes && nodes[g].Some? && Covers(g, k) && !CoversAny(g, added);
      assert k in dirty + touched && g in nodes' && nodes'[g].Some?;
    }
  }

  lemma NoneAboveLoaded(h: HashFn, mem: Flat, nodes: Nodes, nodes': Nodes,
                        pages: set<nat>, dirty: set<nat>, touched: set<nat>, k: nat, g: nat)
    requires NodesOk(h, mem, nodes, pages, dirty) && Forgotten(nodes, nodes', touched - pages)
    requires k in touched && k in pages ==> !StaysCached(nodes, touched - pages, k)
    requires k in dirty + touched && g in nodes' && Covers(g, k)
    ensures nodes'[g].None?
  {
    hide AllocatedAbove;
    assert k in touched - pages ==> CoversAny(g, touched - pages);
    assert g in nodes && nodes[g].Some? ==> 1 <= g;
  }

  // The leaves below every valid hash that survives the allocations are as before.
  ghost predicate LeavesKept(mem: Flat, mem': Flat, nodes: Nodes, added: set<nat>) {
    forall g :: g in nodes && nodes[g].Some? && !CoversAny(g, added) ==> SameLeavesBelow(mem, mem', LEAVES, g)
  }

  /** Every hash still in the map is right after the change if no valid hash that survives the allocations lies above
      a changed leaf, and only then, unless a collision among the nodes of the two memories is handed out. */
  lemma StaleExactlyWhenCovered(h: HashFn, mem: Flat, mem': Flat, nodes: Nodes, nodes': Nodes, added: set<nat>)
    returns (broken: Option<Collision>)
    requires NodesCoherent(h, mem, nodes) && Forgotten(nodes, nodes', added)
    ensures LeavesKept(mem, mem', nodes, added) ==> NodesCoherent(h, mem', nodes')
    ensures broken.Some? <==> NodesCoherent(h, mem', nodes') && !LeavesKept(mem, mem', nodes, added)
    ensures broken.Some? ==> CollidesIn(h, mem, mem', LEAVES, broken.value)
  {
    hide SameLeavesBelow, CollidesIn;
    if LeavesKept(mem, mem', nodes, added) {
      forall g | g in nodes && nodes[g].Some? && !CoversAny(g, added) ensures Node(h, mem, g) == Node(h, mem', g) {
        var _ := NodeBindsLeaves(h, mem, mem', LEAVES, g);
      }
      return None;
    }
    if !NodesCoherent(h, mem', nodes') {
      return None;
    }
    var g :| g in nodes && nodes[g].Some? && !CoversAny(g, added) && !SameLeavesBelow(mem, mem', LEAVES, g);
    assert nodes'[g] == nodes[g] && Node(h, mem, g) == Node(h, mem', g);
    broken := NodeBindsLeaves(h, mem, mem', LEAVES, g);
  }

  // A page becoming clean loses nothing.
  lemma CleanKeepsNodes(h: HashFn, mem: Flat, nodes: Nodes, pages: set<nat>, dirty: set<nat>, k: nat)
    requires NodesOk(h, mem, nodes, pages, dirty)
    ensures NodesOk(h, mem, nodes, pages, dirty - {k})
  {
  }

  // ----- Reading the map of interior hashes -----

  lemma NodeLevel(g: nat)
    requires 1 <= g < 2 * LEAVES
    ensures 1 <= BitLen(g) <= 28 && (BitLen(g) > 20 <==> g >= PAGES)
  {
    TreeSizes();
    BitLenBounds(g);
    BitLenAtMost(g, 27);
    Pow2Order(BitLen(g), 20);
    Pow2Order(20, BitLen(g) - 1);
  }

  lemma AbsentNode(h: HashFn, mem: Flat, nodes: Nodes, pages: set<nat>, dirty: set<nat>, g: nat)
    requires NodesOk(h, mem, nodes, pages, dirty) && ZeroElsewhere(mem, pages)
    requires 1 <= g < PAGES && g !in nodes
    ensures BitLen(g) <= 28 && Node(h, mem, g) == ZeroHash(h, 28 - BitLen(g))
    ensures forall k :: k in dirty ==> !Covers(g, k)
  {
    AbsentNodeIsZero(h, mem, pages, g);
  }

  lemma ValidNode(h: HashFn, mem: Flat, nodes: Nodes, pages: set<nat>, dirty: set<nat>, g: nat)
    requires NodesOk(h, mem, nodes, pages, dirty) && g in nodes && nodes[g].Some?
    ensures 1 <= g < PAGES && nodes[g].value == Node(h, mem, g)
    ensures forall k :: k in dirty ==> !Covers(g, k)
  {
  }

  // Entering the hash of a node whose children have nothing dirty below them.
  lemma SetNodeKeepsNodes(h: HashFn, mem: Flat, nodes: Nodes, pages: set<nat>, dirty: set<nat>, g: nat)
    requires NodesOk(h, mem, nodes, pages, dirty) && 1 <= g < PAGES
    requires forall k :: k in dirty ==> !Covers(2 * g, k) && !Covers(2 * g + 1, k)
    ensures Node(h, mem, g) == h(Node(h, mem, 2 * g), Node(h, mem, 2 * g + 1))
    ensures NodesOk(h, mem, nodes[g := Some(Node(h, mem, g))], pages, dirty)
    ensures forall k :: k in dirty ==> !Covers(g, k)
  {
    forall k | k in dirty ensures !Covers(g, k) {
      if Covers(g, k) {
        AboveChild(g, PAGES + k);
      }
    }
  }
}
