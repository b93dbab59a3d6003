/**
 The sparse memory of the VM with its four layers of caching: the two most
 recently used pages, the map of allocated pages, the map of interior hashes
 above the pages, and the hashes inside each page.  `mem` is the flat memory
 they all have to agree with.
 */
module VmMemory {
  import opened Words
  import opened Merkle
  import opened Page
  import opened FlatMemory
  import opened InclusionProof
  import opened Wrappers

  const NO_PAGE := 0xFFFF_FFFF  // a key that matches no page

  predicate IsZeroTable(h: HashFn, table: seq<Hash>) {
    |table| == 256 && forall i :: 0 <= i < 256 ==> table[i] == ZeroHash(h, i)
  }

  // The table of hashes of all-zero subtrees, filled bottom-up.
  method ComputeZeroHashes(h: HashFn) returns (out: seq<Hash>)
    ensures IsZeroTable(h, out)
  {
    out := [Zeros(32)];
    for i := 1 to 256
      invariant |out| == i
      invariant forall j :: 0 <= j < i ==> out[j] == ZeroHash(h, j)
    {
      out := out + [h(out[i - 1], out[i - 1])];
    }
  }

  // A page agrees with the flat memory, and is dirty when its own root hash is not valid.
  ghost predicate PageOk(h: HashFn, mem: Flat, isDirty: bool, k: nat, p: CachedPage)
    reads p.Data, p.Cache, p.Ok
  {
    && k < PAGES && p.Shape() && p.Coherent(h)
    && p.Data[..] == PageOf(mem, k)
    && (isDirty <==> !p.Ok[1])
  }

  // No hash above the leaf of this byte is marked valid.
  ghost predicate PathUnknown(p: CachedPage, pageAddr: nat)
    requires p.Shape()
    reads p.Ok
  {
    forall j :: 1 <= j < PAGE_LEAVES && p.Ok[j] ==> !Above(j, PAGE_LEAVES + pageAddr / 32)
  }

  ghost predicate Owns(owner: map<object, nat>, k: nat, p: CachedPage) {
    && p.Data in owner && owner[p.Data] == k
    && p.Cache in owner && owner[p.Cache] == k
    && p.Ok in owner && owner[p.Ok] == k
  }

  function Claim(owner: map<object, nat>, p: CachedPage, k: nat): map<object, nat> {
    owner[p.Data as object := k][p.Cache as object := k][p.Ok as object := k]
  }

  lemma ZeroPageOk(h: HashFn, mem: Flat, pages: set<nat>, k: nat, p: CachedPage)
    requires ZeroElsewhere(mem, pages) && k < PAGES && k !in pages
    requires p.Shape() && p.Data[..] == Zeros(PAGE_SIZE)
    requires forall j :: 0 <= j < PAGE_LEAVES ==> !p.Ok[j]
    ensures PageOk(h, mem, true, k, p) && ZeroElsewhere(mem, pages + {k})
  {
  }

  class Memory {
    const hash: HashFn
    const zeroHashes: seq<Hash>

    var nodes: Nodes
    var pages: map<nat, CachedPage>
    var lastPageKey0: nat
    var lastPageKey1: nat
    var lastPage0: CachedPage?
    var lastPage1: CachedPage?

    ghost var mem: Flat
    ghost var dirty: set<nat>           // pages whose own root hash is not valid
    ghost var owner: map<object, nat>   // the arrays of the pages, and whose they are

    ghost predicate PagesOk()
      reads `pages, `mem, `dirty, `owner, owner.Keys
    {
      && (forall k :: k in pages ==> Owns(owner, k, pages[k]) && PageOk(hash, mem, k in dirty, k, pages[k]))
      && ZeroElsewhere(mem, pages.Keys)
    }

    ghost predicate LastPagesOk()
      reads `pages, `lastPageKey0, `lastPageKey1, `lastPage0, `lastPage1
    {
      && (lastPageKey0 < PAGES ==> lastPageKey0 in pages && lastPage0 == pages[lastPageKey0])
      && (lastPageKey1 < PAGES ==> lastPageKey1 in pages && lastPage1 == pages[lastPageKey1])
    }

    ghost predicate Valid()
      reads this, owner.Keys
    {
      && IsZeroTable(hash, zeroHashes)
      && this !in owner.Keys
      && PagesOk()
      && LastPagesOk()
      && NodesOk(hash, mem, nodes, pages.Keys, dirty)
    }

    // Everything but the hashes above the pages is right.
    ghost predicate Loose()
      reads this, owner.Keys
    {
      && IsZeroTable(hash, zeroHashes)
      && this !in owner.Keys
      && PagesOk()
      && LastPagesOk()
      && NodesLoose(nodes, pages.Keys, dirty)
    }

    lemma ValidIsLoose()
      ensures Valid() ==> Loose()
    {
      hide PagesOk, LastPagesOk, IsZeroTable, NodesOk, NodesLoose;
      NodesOkSplit(hash, mem, nodes, pages.Keys, dirty);
    }

    lemma PageIsOk(k: nat)
      requires PagesOk() && k in pages
      ensures Owns(owner, k, pages[k]) && PageOk(hash, mem, k in dirty, k, pages[k])
    {
    }

    lemma PagesZeroElsewhere()
      requires PagesOk()
      ensures ZeroElsewhere(mem, pages.Keys)
    {
    }

    // When only page k and its bytes change, it is enough to look at page k.
    twostate lemma OnePageChanged(k: nat)
      requires old(PagesOk()) && pages == old(pages) && owner == old(owner)
      requires k in pages && PageOk(hash, mem, k in dirty, k, pages[k])
      requires forall j :: 0 <= j < PAGES && j != k ==> PageOf(mem, j) == PageOf(old(mem), j)
      requires forall j :: j != k ==> (j in dirty <==> j in old(dirty))
      requires forall o :: o in owner && owner[o] != k ==> unchanged(o)
      ensures PagesOk()
    {
      hide CachedPage.Coherent;
    }

    twostate lemma PageAdded(k: nat, new p: CachedPage)
      requires old(PagesOk()) && k !in old(pages) && mem == old(mem)
      requires pages == old(pages)[k := p] && owner == Claim(old(owner), p, k) && dirty == old(dirty) + {k}
      requires p.Repr() !! old(owner.Keys) && PageOk(hash, mem, true, k, p)
      requires ZeroElsewhere(mem, pages.Keys)
      requires forall o :: o in old(owner) ==> unchanged(o)
      ensures PagesOk()
    {
      hide CachedPage.Coherent, CachedPage.Shape, ZeroElsewhere;
      assert Owns(owner, k, p);
      forall j | j in pages && j != k
        ensures Owns(owner, j, pages[j]) && PageOk(hash, mem, j in dirty, j, pages[j])
      {
        assert Owns(old(owner), j, pages[j]);
      }
    }

    // Writing a word to a page with nothing known above it keeps its remaining hashes right.
    twostate lemma WriteKeepsPage(addr: Word, new v: Word)
      requires pages == old(pages) && Aligned(addr) && addr / PAGE_SIZE in pages
      requires old(PageOk(hash, mem, true, addr / PAGE_SIZE, pages[addr / PAGE_SIZE]))
      requires old(PathUnknown(pages[addr / PAGE_SIZE], addr % PAGE_SIZE))
      requires addr % PAGE_SIZE + 4 <= PAGE_SIZE
      requires var p := pages[addr / PAGE_SIZE];
        && p.Cache[..] == old(p.Cache[..]) && p.Ok[..] == old(p.Ok[..])
        && p.Data[..] == old(p.Data[..addr % PAGE_SIZE]) + ToBytes(v) + old(p.Data[addr % PAGE_SIZE + 4..])
      ensures PageOk(hash, WithWord(old(mem), addr, v), true, addr / PAGE_SIZE, pages[addr / PAGE_SIZE])
    {
      hide Tree, WithWord, PageOf, ToBytes;
      WriteInPage(old(mem), addr, v);
      var p, a := pages[addr / PAGE_SIZE], addr % PAGE_SIZE;
      assert Aligned(a);
      var data, data' := old(p.Data[..]), p.Data[..];
      assert data' == data[..a] + ToBytes(v) + data[a + 4..];
      forall j | 1 <= j < PAGE_LEAVES && p.Ok[j]
        ensures p.Cache[j] == Tree(hash, data', PAGE_LEAVES, j)
      {
        assert p.Ok[..][j] && p.Cache[..][j] == old(p.Cache[j]);
        WriteKeepsTree(hash, data, data', a, v, j);
      }
    }

    constructor (h: HashFn)
      ensures Valid() && owner == map[]
      ensures hash == h && mem == Zeros(WORD_RANGE)
    {
      hash := h;
      var zh := ComputeZeroHashes(h);
      zeroHashes := zh;
      nodes := map[];
      pages := map[];
      lastPageKey0, lastPageKey1 := NO_PAGE, NO_PAGE;
      lastPage0, lastPage1 := null, null;
      mem := Zeros(WORD_RANGE);
      dirty, owner := {}, map[];
    }

    method PageLookup(pageIndex: nat) returns (p: CachedPage?, ok: bool)
      requires Loose() && pageIndex < PAGES
      modifies `lastPageKey0, `lastPageKey1, `lastPage0, `lastPage1
      ensures Loose() && (old(Valid()) ==> Valid())
      ensures ok == (pageIndex in pages) && (ok ==> p == pages[pageIndex])
    {
      hide NodesOk, PagesOk, NodesLoose;
      // the two pages looked up last
      if pageIndex == lastPageKey0 {
        return lastPage0, true;
      }
      if pageIndex == lastPageKey1 {
        return lastPage1, true;
      }
      // a missing page is not remembered, it may be allocated later
      if pageIndex in pages {
        p, ok := pages[pageIndex], true;
        lastPageKey1 := lastPageKey0;
        lastPage1 := lastPage0;
        lastPageKey0 := pageIndex;
        lastPage0 := p;
      } else {
        p, ok := null, false;
      }
    }

    method GetMemory(addr: Word) returns (v: Word)
      requires Loose() && Aligned(addr)
      modifies `lastPageKey0, `lastPageKey1, `lastPage0, `lastPage1
      ensures Loose() && (old(Valid()) ==> Valid())
      ensures v == WordAt(mem, addr)
    {
      var p, ok := PageLookup(addr / PAGE_SIZE);
      WordInPage(mem, addr);
      if !ok {
        assert Zeros(PAGE_SIZE)[addr % PAGE_SIZE..addr % PAGE_SIZE + 4] == [0, 0, 0, 0];
        return 0;
      }
      var pageAddr := addr % PAGE_SIZE;
      assert p.Data[pageAddr..pageAddr + 4] == p.Data[..][pageAddr..pageAddr + 4];
      v := FromBytes(p.Data[pageAddr..pageAddr + 4]);
    }

    // Mark a node and everything above it as allocated with unknown hash.
    method ClearToRoot(start: nat)
      modifies `nodes
      ensures nodes == Cleared(old(nodes), start)
    {
      var k := start;
      while k > 0
        invariant Cleared(nodes, k) == Cleared(old(nodes), start)
      {
        nodes := nodes[k := None];
        k := k / 2;
      }
    }

    // Put a new zero page in the page map.
    method AddPage(pageIndex: nat) returns (p: CachedPage)
      requires this !in owner.Keys && PagesOk() && LastPagesOk() && pageIndex < PAGES && pageIndex !in pages
      modifies `pages, `dirty, `owner
      ensures this !in owner.Keys && PagesOk() && LastPagesOk()
      ensures pages == old(pages)[pageIndex := p] && dirty == old(dirty) + {pageIndex}
      ensures fresh(p.Repr()) && owner == Claim(old(owner), p, pageIndex)
      ensures p.Shape() && forall j :: 0 <= j < PAGE_LEAVES ==> !p.Ok[j]
    {
      hide PagesOk, PageOk, CachedPage.Shape, ZeroElsewhere;
      p := new CachedPage();
      PagesZeroElsewhere();
      ZeroPageOk(hash, mem, pages.Keys, pageIndex, p);
      pages := pages[pageIndex := p];
      assert pages.Keys == old(pages.Keys) + {pageIndex};
      owner := Claim(owner, p, pageIndex);
      dirty := dirty + {pageIndex};
      PageAdded(pageIndex, p);
    }

    /** Allocate an all-zero page.  Callers have looked the index up and found no page there. */
    method AllocPage(pageIndex: nat) returns (p: CachedPage)
      requires Loose() && pageIndex < PAGES && pageIndex !in pages
      modifies `nodes, `pages, `dirty, `owner
      ensures Loose() && (old(Valid()) ==> Valid())
      ensures pages == old(pages)[pageIndex := p] && dirty == old(dirty) + {pageIndex}
      ensures fresh(p.Repr()) && owner == Claim(old(owner), p, pageIndex)
      ensures p.Shape() && forall j :: 0 <= j < PAGE_LEAVES ==> !p.Ok[j]
      ensures nodes == Cleared(old(nodes), PAGES + pageIndex)
    {
      hide NodesOk, PagesOk, IsZeroTable, NodesLoose;
      AllocKeepsLoose(nodes, pages.Keys, dirty, pageIndex);
      if NodesOk(hash, mem, nodes, pages.Keys, dirty) {
        AllocKeepsNodes(hash, mem, nodes, pages.Keys, dirty, pageIndex);
      }
      p := AddPage(pageIndex);
      ClearToRoot(PAGES + pageIndex); // every ancestor of the new page
      assert pages.Keys == old(pages.Keys) + {pageIndex};
    }

    /** Forget every hash that covers `addr`. */
    method Invalidate(addr: Word)
      requires Loose() && Aligned(addr)
      modifies `nodes, `dirty, `lastPageKey0, `lastPageKey1, `lastPage0, `lastPage1, owner.Keys
      ensures Loose() && (old(Valid()) ==> Valid())
      ensures dirty == old(dirty) + if addr / PAGE_SIZE in pages then {addr / PAGE_SIZE} else {}
      ensures addr / PAGE_SIZE in pages ==> PathUnknown(pages[addr / PAGE_SIZE], addr % PAGE_SIZE)
    {
      hide NodesOk, NodesLoose, IsZeroTable, CachedPage.Coherent, PagesOk;
      var p, ok := PageLookup(addr / PAGE_SIZE);
      if !ok {
        return; // an absent page has no hash to forget
      }
      PageIsOk(addr / PAGE_SIZE);
      var prevValid := p.Ok[1];
      p.Invalidate(addr % PAGE_SIZE, hash);
      if !prevValid { // a dirty page has no cached node above it
        OnePageChanged(addr / PAGE_SIZE);
        return;
      }
      ClearedKeepsLoose(nodes, pages.Keys, dirty, addr / PAGE_SIZE);
      if NodesOk(hash, mem, nodes, pages.Keys, dirty) {
        ClearedKeepsNodes(hash, mem, nodes, pages.Keys, dirty, addr / PAGE_SIZE);
      }
      ClearToRoot(PAGES + addr / PAGE_SIZE);
      dirty := dirty + {addr / PAGE_SIZE};
      OnePageChanged(addr / PAGE_SIZE);
    }

    // Write a word to a page whose hashes above it are all unknown.
    method StoreWord(p: CachedPage, addr: Word, v: Word)
      requires Loose() && Aligned(addr) && addr / PAGE_SIZE in dirty
      requires addr / PAGE_SIZE in pages && p == pages[addr / PAGE_SIZE]
      requires p.Shape() && PathUnknown(p, addr % PAGE_SIZE)
      modifies `mem, p.Data
      ensures Loose() && (old(Valid()) ==> Valid()) && mem == WithWord(old(mem), addr, v)
    {
      hide NodesOk, NodesLoose, IsZeroTable, PagesOk, PageOk, PathUnknown;
      PageIsOk(addr / PAGE_SIZE);
      AlignedInPage(addr);
      PutUint32(p.Data, addr % PAGE_SIZE, v);
      mem := WithWord(mem, addr, v);
      WriteKeepsPage(addr, v);
      if NodesOk(hash, old(mem), nodes, pages.Keys, dirty) {
        WriteKeepsNodes(hash, old(mem), nodes, pages.Keys, dirty, addr, v);
      }
      WriteIsLocal(old(mem), addr, v);
      OnePageChanged(addr / PAGE_SIZE);
    }

    /** Write a word.  The flat memory changes at that word and nowhere else. */
    method SetMemory(addr: Word, v: Word)
      requires Loose() && Aligned(addr)
      modifies this, owner.Keys
      ensures Loose() && (old(Valid()) ==> Valid())
      ensures mem == WithWord(old(mem), addr, v) && pages.Keys == old(pages.Keys) + {addr / PAGE_SIZE}
      ensures fresh(owner.Keys - old(owner.Keys))
    {
      hide NodesOk, NodesLoose, IsZeroTable, PagesOk, LastPagesOk, PageOk;
      var pageIndex := addr / PAGE_SIZE;
      var p, ok := PageLookup(pageIndex);
      if !ok {
        // the first write to a page creates it
        p := AllocPage(pageIndex);
      } else {
        Invalidate(addr); // forget all hashes above the word
      }
      PageIsOk(pageIndex);
      StoreWord(p, addr, v);
    }

    // A node at or below page level: look it up in its page.
    method MerkleizeInPage(gindex: nat, l: nat) returns (r: Hash)
      requires Valid() && PAGES <= gindex < 2 * LEAVES && l == BitLen(gindex) && 21 <= l <= 28
      modifies `dirty, owner.Keys
      ensures Valid() && dirty <= old(dirty)
      ensures forall k :: k in dirty ==> !Covers(gindex, k)
      ensures r == Node(hash, mem, gindex)
    {
      hide NodesOk, PagesOk, Covers;
      var depthIntoPage := l - 21;
      var pageIndex := ShiftRight(gindex, depthIntoPage) % PAGES;
      var pageGindex := Pow2(depthIntoPage) + LowBits(gindex, depthIntoPage);
      NodeInPage(hash, mem, gindex);
      forall k | k in dirty && Covers(gindex, k) ensures k == pageIndex {
        DirtyBound(k);
        NodeOfPage(gindex, k);
      }
      if pageIndex in pages {
        var p := pages[pageIndex];
        PageIsOk(pageIndex);
        r := p.MerkleizeSubtree(hash, pageGindex);
        dirty := dirty - {pageIndex};
        CleanKeepsNodes(hash, mem, nodes, pages.Keys, old(dirty), pageIndex);
        OnePageChanged(pageIndex);
      } else {
        r := zeroHashes[28 - l]; // reads as zero
        PagesZeroElsewhere();
        AbsentPageIsZero(hash, pageGindex);
        DirtyInPages(pageIndex);
      }
    }

    lemma DirtyBound(k: nat)
      requires Valid() && k in dirty
      ensures k < PAGES
    {
    }

    lemma DirtyInPages(k: nat)
      requires Valid() && k !in pages
      ensures k !in dirty
    {
    }

    /** The hash of any node of the tree, read from or entered into the caches. */
    method MerkleizeSubtree(gindex: nat) returns (r: Hash)
      requires Valid() && 1 <= gindex < 2 * LEAVES
      modifies `nodes, `dirty, owner.Keys
      ensures Valid() && dirty <= old(dirty)
      ensures forall k :: k in dirty ==> !Covers(gindex, k)
      ensures r == Node(hash, mem, gindex)
      ensures nodes.Keys == old(nodes.Keys) && (gindex in nodes && gindex < PAGES ==> nodes[gindex] == Some(r))
      decreases 2 * LEAVES - gindex
    {
      hide NodesOk, PagesOk, Covers, LastPagesOk, Node;
      var l := BitLen(gindex);
      NodeLevel(gindex);
      if l > 20 {
        r := MerkleizeInPage(gindex, l);
        return;
      }
      if gindex !in nodes {
        // no page below this node is allocated
        PagesZeroElsewhere();
        AbsentNode(hash, mem, nodes, pages.Keys, dirty, gindex);
        return zeroHashes[28 - l];
      }
      if nodes[gindex].Some? {
        ValidNode(hash, mem, nodes, pages.Keys, dirty, gindex);
        return nodes[gindex].value;
      }
      var left := MerkleizeSubtree(2 * gindex);
      var right := MerkleizeSubtree(2 * gindex + 1);
      r := hash(left, right);
      SetNodeKeepsNodes(hash, mem, nodes, pages.Keys, dirty, gindex);
      nodes := nodes[gindex := Some(r)];
    }

    method MerkleRoot() returns (r: Hash)
      requires Valid()
      modifies `nodes, `dirty, owner.Keys
      ensures Valid() && r == Root(hash, mem)
      ensures nodes.Keys == old(nodes.Keys) && (1 in nodes ==> nodes[1] == Some(r))
    {
      r := MerkleizeSubtree(1);
    }

    // The branch from the leaf of `addr` up to below `parent`: leaf first, then the siblings.
    method TraverseBranch(parent: nat, addr: Word, depth: nat) returns (proof: seq<Hash>)
      requires Valid() && depth <= 27 && parent == BranchNode(addr, depth)
      modifies `nodes, `dirty, owner.Keys
      ensures Valid() && 1 <= parent && Above(parent, LeafIndex(addr))
      ensures proof == [Node(hash, mem, LeafIndex(addr))] + Siblings(hash, mem, LEAVES, LeafIndex(addr), parent)
      decreases 27 - depth
    {
      hide NodesOk, PagesOk, LastPagesOk, IsZeroTable, Siblings, BranchNode, Above;
      BranchNodeAbove(addr, depth);
      if depth == 27 {
        var leaf := MerkleizeSubtree(parent);
        SiblingsAtTop(hash, mem, LeafIndex(addr));
        return [leaf];
      }
      var self, sibling := 2 * parent, 2 * parent + 1;
      if ShiftRight(addr, 31 - depth) % 2 == 1 {
        self, sibling := sibling, self;
      }
      BranchStep(addr, depth);
      BranchNodeAbove(addr, depth + 1);
      proof := TraverseBranch(self, addr, depth + 1);
      var siblingNode := MerkleizeSubtree(sibling);
      SiblingsSnoc(hash, mem, LEAVES, LeafIndex(addr), self);
      proof := proof + [siblingNode];
    }

    /** The bytes of the inclusion proof of the leaf that holds `addr`. */
    method MerkleProof(addr: Word) returns (out: seq<Byte>)
      requires Valid()
      modifies `nodes, `dirty, owner.Keys
      ensures Valid() && out == Concat(ProofOf(hash, mem, addr))
    {
      hide NodesOk, PagesOk, LastPagesOk, IsZeroTable, ProofOf, BranchNode, Concat, Above, Siblings;
      BranchTop(addr);
      ProofShape(hash, mem, addr);
      var proof := TraverseBranch(1, addr, 0);
      // the nodes one after the other
      out := [];
      ConcatEmpty();
      for i := 0 to 28
        invariant Valid() && out == Concat(proof[..i])
      {
        ConcatSnoc(proof[..i], proof[i]);
        assert proof[..i + 1] == proof[..i] + [proof[i]];
        out := out + proof[i];
      }
      assert proof[..28] == proof;
    }
  }
}
