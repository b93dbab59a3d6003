/**
 Bulk loading of memory from a reader, and reading a range of memory back
 through buffers of any size.  Addresses wrap around at 2^32.
 */
module MemoryRange {
  import opened Words
  import opened Merkle
  import opened Page
  import opened FlatMemory
  import opened VmMemory
  import opened Wrappers

  // ----- What the two operations mean on the flat memory -----

  function Wrap(addr: Word, i: nat): Word {
    (addr + i) % WORD_RANGE
  }

  // Write bytes one after the other, wrapping at the end of memory.
  function WithBytes(mem: Flat, addr: Word, bs: seq<Byte>): Flat
    decreases |bs|
  {
    if bs == [] then mem
    else WithBytes(mem[addr := bs[0]], Wrap(addr, 1), bs[1..])
  }

  function BytesAt(mem: Flat, addr: Word, n: nat): (bs: seq<Byte>)
    ensures |bs| == n
    decreases n
  {
    if n == 0 then [] else [mem[addr]] + BytesAt(mem, Wrap(addr, 1), n - 1)
  }

  lemma WrapWrap(addr: Word, i: nat, j: nat)
    ensures Wrap(Wrap(addr, i), j) == Wrap(addr, i + j)
  {
  }

  lemma WithNoBytes(mem: Flat, addr: Word)
    ensures WithBytes(mem, addr, []) == mem
  {
  }

  lemma {:induction false} WithBytesAppend(mem: Flat, addr: Word, a: seq<Byte>, b: seq<Byte>)
    ensures WithBytes(mem, addr, a + b) == WithBytes(WithBytes(mem, addr, a), Wrap(addr, |a|), b)
    decreases |a|
  {
    if a == [] {
      assert a + b == b;
    } else {
      assert (a + b)[1..] == a[1..] + b;
      WithBytesAppend(mem[addr := a[0]], Wrap(addr, 1), a[1..], b);
      WrapWrap(addr, 1, |a| - 1);
    }
  }

  lemma {:induction false} WithBytesNoWrap(mem: Flat, addr: Word, bs: seq<Byte>)
    requires addr + |bs| <= WORD_RANGE
    ensures WithBytes(mem, addr, bs) == mem[..addr] + bs + mem[addr + |bs|..]
    decreases |bs|
  {
    if bs != [] {
      if |bs| > 1 {
        WithBytesNoWrap(mem[addr := bs[0]], addr + 1, bs[1..]);
      }
    }
  }

  lemma {:induction false} BytesAtAppend(mem: Flat, addr: Word, m: nat, n: nat)
    ensures BytesAt(mem, addr, m + n) == BytesAt(mem, addr, m) + BytesAt(mem, Wrap(addr, m), n)
    decreases m
  {
    if m > 0 {
      BytesAtAppend(mem, Wrap(addr, 1), m - 1, n);
      WrapWrap(addr, 1, m - 1);
    }
  }

  lemma {:induction false} BytesAtNoWrap(mem: Flat, addr: Word, n: nat)
    requires addr + n <= WORD_RANGE
    ensures BytesAt(mem, addr, n) == mem[addr..addr + n]
    decreases n
  {
    if n > 1 {
      BytesAtNoWrap(mem, addr + 1, n - 1);
    }
  }

  // Byte j lies in the n bytes from addr on.
  predicate InRange(addr: Word, n: nat, j: nat) {
    (j - addr) % WORD_RANGE < n
  }

  /** Bytes outside the written range keep their value. */
  lemma {:induction false} WithBytesElsewhere(mem: Flat, addr: Word, bs: seq<Byte>, j: nat)
    requires j < WORD_RANGE && !InRange(addr, |bs|, j)
    ensures WithBytes(mem, addr, bs)[j] == mem[j]
    decreases |bs|
  {
    if bs != [] {
      NextInRange(addr, |bs|, j);
      WithBytesElsewhere(mem[addr := bs[0]], Wrap(addr, 1), bs[1..], j);
    }
  }

  lemma NextInRange(addr: Word, n: nat, j: nat)
    requires n > 0 && j < WORD_RANGE
    ensures InRange(addr, n, j) <==> j == addr || InRange(Wrap(addr, 1), n - 1, j)
    ensures n <= WORD_RANGE ==> !InRange(Wrap(addr, 1), n - 1, addr)
  {
  }

  /** Reading back what was written, for up to all of memory and across the wrap. */
  lemma {:induction false} RangeRoundTrip(mem: Flat, addr: Word, bs: seq<Byte>)
    requires |bs| <= WORD_RANGE
    ensures BytesAt(WithBytes(mem, addr, bs), addr, |bs|) == bs
    decreases |bs|
  {
    if bs != [] {
      var mem1, next := mem[addr := bs[0]], Wrap(addr, 1);
      RangeRoundTrip(mem1, next, bs[1..]);
      NextInRange(addr, |bs|, addr);
      WithBytesElsewhere(mem1, next, bs[1..], addr);
    }
  }

  // ----- Loading from a reader -----

  // What a reader does when asked: deliver at most so many bytes, possibly reporting the end with the last of
  // them, or fail.
  datatype ReadStep = Deliver(max: nat, eager: bool) | Fail(max: nat)
  datatype ReadErr = NoError | Eof | Failed
  datatype ByteSource = ByteSource(rest: seq<Byte>, steps: seq<ReadStep>) {
    predicate CanFail() {
      exists i :: 0 <= i < |steps| && steps[i].Fail?
    }
  }

  // io.Reader.Read on a slice of a page: any chunking, ending in EOF or in a failure.
  method ReadInto(src: ByteSource, dest: array<Byte>, from: nat) returns (src': ByteSource, n: nat, err: ReadErr)
    requires from < dest.Length
    modifies dest
    ensures n <= |src.rest| && from + n <= dest.Length
    ensures src'.rest == src.rest[n..] && (src'.CanFail() ==> src.CanFail())
    ensures dest[..] == old(dest[..from]) + src.rest[..n] + old(dest[from + n..])
    ensures err.Eof? ==> n == |src.rest|
    ensures err.Failed? ==> src.CanFail()
    ensures err.NoError? ==> |src'.rest| + |src'.steps| < |src.rest| + |src.steps|
  {
    n := Min(dest.Length - from, |src.rest|);
    var steps := src.steps;
    err := if src.rest == [] then Eof else NoError;
    if steps != [] {
      var step := steps[0];
      n := Min(n, step.max);
      err := if step.Fail? then Failed
             else if src.rest == [] || (step.eager && n == |src.rest|) then Eof else NoError;
      steps := steps[1..];
      assert forall i :: 0 <= i < |steps| ==> steps[i] == src.steps[i + 1];
    }
    forall i | 0 <= i < n {
      dest[from + i] := src.rest[i];
    }
    src' := ByteSource(src.rest[n..], steps);
  }

  lemma PageRangeWrite(mem: Flat, addr: Word, bs: seq<Byte>)
    requires addr % PAGE_SIZE + |bs| <= PAGE_SIZE
    ensures addr / PAGE_SIZE < PAGES && SamePagesBut(mem, WithBytes(mem, addr, bs), addr / PAGE_SIZE)
    ensures var p, a := PageOf(mem, addr / PAGE_SIZE), addr % PAGE_SIZE;
      PageOf(WithBytes(mem, addr, bs), addr / PAGE_SIZE) == p[..a] + bs + p[a + |bs|..]
  {
    var k, a := addr / PAGE_SIZE, addr % PAGE_SIZE;
    var mem' := WithBytes(mem, addr, bs);
    WithBytesNoWrap(mem, addr, bs);
    forall j | 0 <= j < PAGES && j != k ensures PageOf(mem, j) == PageOf(mem', j) {
      assert forall i :: PAGE_SIZE * j <= i < PAGE_SIZE * j + PAGE_SIZE ==> mem'[i] == mem[i];
    }
    var p := PageOf(mem, k);
    var q := p[..a] + bs + p[a + |bs|..];
    forall i | 0 <= i < PAGE_SIZE ensures PageOf(mem', k)[i] == q[i] {
      assert PageOf(mem', k)[i] == mem'[PAGE_SIZE * k + i];
    }
  }

  // Reset every hash of page k.
  method ForgetPage(m: Memory, k: nat)
    requires m.Loose() && k in m.pages
    modifies m`dirty, m.owner.Keys
    ensures m.Loose() && m.dirty == old(m.dirty) + {k}
    ensures m.pages[k].Shape() && forall j :: 0 <= j < PAGE_LEAVES ==> !m.pages[k].Ok[j]
  {
    hide Memory.PagesOk, Memory.LastPagesOk, IsZeroTable, AllocatedAbove;
    m.PageIsOk(k);
    m.pages[k].InvalidateFull(m.hash);
    m.dirty := m.dirty + {k};
    m.OnePageChanged(k);
  }

  // Let the reader fill a page none of whose hashes is known.
  method FillPage(m: Memory, addr: Word, src: ByteSource) returns (src': ByteSource, n: nat, err: ReadErr)
    requires m.Loose() && addr / PAGE_SIZE in m.pages && addr / PAGE_SIZE in m.dirty
    requires var p := m.pages[addr / PAGE_SIZE]; p.Shape() && forall j :: 0 <= j < PAGE_LEAVES ==> !p.Ok[j]
    modifies m`mem, m.owner.Keys
    ensures m.Loose() && n <= |src.rest| && src'.rest == src.rest[n..]
    ensures m.mem == WithBytes(old(m.mem), addr, src.rest[..n]) && SamePagesBut(old(m.mem), m.mem, addr / PAGE_SIZE)
    ensures src'.CanFail() ==> src.CanFail()
    ensures err.Eof? ==> n == |src.rest|
    ensures err.Failed? ==> src.CanFail()
    ensures err.NoError? ==> |src'.rest| + |src'.steps| < |src.rest| + |src.steps|
  {
    hide NodesLoose, Memory.PagesOk, Memory.LastPagesOk, IsZeroTable, WithBytes, ByteSource.CanFail;
    var k := addr / PAGE_SIZE;
    var p := m.pages[k];
    m.PageIsOk(k);
    src', n, err := ReadInto(src, p.Data, addr % PAGE_SIZE);
    PageRangeWrite(m.mem, addr, src.rest[..n]);
    m.mem := WithBytes(m.mem, addr, src.rest[..n]);
    m.OnePageChanged(k);
  }

  // The first or a later byte of the range, or the byte after it, lies in page k.
  ghost predicate Touched(addr: Word, n: nat, k: nat) {
    exists i :: 0 <= i <= n && Wrap(addr, i) / PAGE_SIZE == k
  }

  // No hash above an allocated page of the range is cached.
  ghost predicate RangeUncached(nodes: Nodes, pages: set<nat>, addr: Word, n: nat) {
    forall k :: k in pages && Touched(addr, n, k) ==> Uncached(nodes, k)
  }

  // One round of the loading loop.
  method LoadChunk(m: Memory, addr: Word, src: ByteSource) returns (src': ByteSource, n: nat, err: ReadErr)
    requires m.Loose()
    modifies m, m.owner.Keys
    ensures m.Loose() && n <= |src.rest| && src'.rest == src.rest[n..]
    ensures m.mem == WithBytes(old(m.mem), addr, src.rest[..n]) && SamePagesBut(old(m.mem), m.mem, addr / PAGE_SIZE)
    ensures m.pages.Keys == old(m.pages.Keys) + {addr / PAGE_SIZE} && m.dirty == old(m.dirty) + {addr / PAGE_SIZE}
    ensures m.nodes == if addr / PAGE_SIZE in old(m.pages) then old(m.nodes)
                       else Cleared(old(m.nodes), PAGES + addr / PAGE_SIZE)
    ensures fresh(m.owner.Keys - old(m.owner.Keys))
    ensures src'.CanFail() ==> src.CanFail()
    ensures err.Eof? ==> n == |src.rest|
    ensures err.Failed? ==> src.CanFail()
    ensures err.NoError? ==> |src'.rest| + |src'.steps| < |src.rest| + |src.steps|
  {
    hide NodesLoose, NodesOk, Memory.PagesOk, Memory.LastPagesOk, IsZeroTable, WithBytes, ByteSource.CanFail, SamePagesBut;
    var k := addr / PAGE_SIZE;
    var p, ok := m.PageLookup(k);
    if !ok {
      p := m.AllocPage(k);
    }
    ForgetPage(m, k);
    src', n, err := FillPage(m, addr, src);
  }

  // The pages outside are as before.
  ghost predicate SameOutside(mem: Flat, mem': Flat, touched: set<nat>) {
    forall k :: 0 <= k < PAGES && k !in touched ==> PageOf(mem, k) == PageOf(mem', k)
  }

  lemma SameOutsideNext(mem: Flat, mem1: Flat, mem2: Flat, touched: set<nat>, k: nat)
    requires SameOutside(mem, mem1, touched) && SamePagesBut(mem1, mem2, k)
    ensures SameOutside(mem, mem2, touched + {k})
  {
    hide PageOf;
  }

  lemma TouchedNext(addr: Word, n: nat, c: nat, touched: set<nat>)
    requires forall k :: k in touched ==> Touched(addr, n, k)
    ensures forall k :: k in touched + {Wrap(addr, n) / PAGE_SIZE} ==> Touched(addr, n + c, k)
  {
    hide Wrap;
    forall k | k in touched + {Wrap(addr, n) / PAGE_SIZE} ensures Touched(addr, n + c, k) {
      if k in touched {
        var i :| 0 <= i <= n && Wrap(addr, i) / PAGE_SIZE == k;
        assert 0 <= i <= n + c;
      } else {
        assert 0 <= n <= n + c && Wrap(addr, n) / PAGE_SIZE == k;
      }
    }
  }

  // The pages touched that were not there before.
  ghost function Added(touched: set<nat>, pages: set<nat>): set<nat> {
    touched - pages
  }

  lemma AddedNext(touched: set<nat>, pages: set<nat>, k: nat, nodes: Nodes, nodes': Nodes)
    requires Forgotten(nodes, nodes', Added(touched, pages))
    ensures var nodes'' := if k in pages + touched then nodes' else Cleared(nodes', PAGES + k);
      Forgotten(nodes, nodes'', Added(touched + {k}, pages))
  {
    hide Forgotten;
    if k in pages + touched {
      assert Added(touched + {k}, pages) == Added(touched, pages);
    } else {
      ForgottenNext(nodes, nodes', Added(touched, pages), k);
      assert Added(touched + {k}, pages) == Added(touched, pages) + {k};
    }
  }

  lemma AddNext(all: set<nat>, touched: set<nat>, k: nat)
    ensures all + touched + {k} == all + (touched + {k})
  {
  }

  // With nothing cached above the range nothing stays cached.
  lemma UncachedStaysSo(nodes: Nodes, pages: set<nat>, addr: Word, n: nat, m: nat, touched: set<nat>)
    requires RangeUncached(nodes, pages, addr, n) && m <= n && forall k :: k in touched ==> Touched(addr, m, k)
    ensures forall k :: k in touched && k in pages ==> !StaysCached(nodes, Added(touched, pages), k)
  {
    forall k | k in touched && k in pages ensures Uncached(nodes, k) {
      var i :| 0 <= i <= m && Wrap(addr, i) / PAGE_SIZE == k;
      assert Touched(addr, n, k);
    }
  }

  /** Load bytes from a reader into memory.  The bytes are in place, and all page-level hashes are right.  Hashes
      above the pages are forgotten only where a page is allocated, so a memory that was right stays right if and only
      if no valid hash above a page loaded into survives; before any root has been computed it always does.  A wrong
      hash is left behind only if a valid one that survives lies above a leaf that has changed, and then always,
      unless a collision among the nodes of the memory before and after is handed out. */
  method SetMemoryRange(m: Memory, addr: Word, src: ByteSource)
    returns (n: nat, err: ReadErr, ghost touched: set<nat>, ghost broken: Option<Collision>)
    requires m.Loose()
    modifies m, m.owner.Keys
    ensures m.Loose() && fresh(m.owner.Keys - old(m.owner.Keys))
    ensures n <= |src.rest| && m.mem == WithBytes(old(m.mem), addr, src.rest[..n])
    ensures err.NoError? ==> n == |src.rest|
    ensures !err.NoError? ==> err.Failed? && src.CanFail()
    ensures (forall k :: k in touched ==> Touched(addr, n, k)) && m.pages.Keys == old(m.pages.Keys) + touched
    ensures SameOutside(old(m.mem), m.mem, touched)
    ensures Forgotten(old(m.nodes), m.nodes, Added(touched, old(m.pages.Keys)))
    ensures old(m.Valid()) ==> (m.Valid() <==>
      forall k :: k in touched && k in old(m.pages) ==>
        !StaysCached(old(m.nodes), Added(touched, old(m.pages.Keys)), k))
    ensures old(m.Valid() && RangeUncached(m.nodes, m.pages.Keys, addr, |src.rest|)) ==> m.Valid()
    ensures old(NodesCoherent(m.hash, m.mem, m.nodes)) ==>
      var kept := LeavesKept(old(m.mem), m.mem, old(m.nodes), Added(touched, old(m.pages.Keys)));
      && (kept ==> NodesCoherent(m.hash, m.mem, m.nodes))
      && (broken.Some? <==> NodesCoherent(m.hash, m.mem, m.nodes) && !kept)
      && (broken.Some? ==> CollidesIn(m.hash, old(m.mem), m.mem, LEAVES, broken.value))
  {
    hide NodesOk, NodesLoose, Memory.PagesOk, Memory.LastPagesOk, IsZeroTable, WithBytes, ByteSource.CanFail,
         SamePagesBut, SameOutside, Touched, Forgotten, Added, RangeUncached, StaysCached, Cleared, LeavesKept,
         CollidesIn;
    ghost var mem, nodes, pages, dirty := m.mem, m.nodes, m.pages.Keys, m.dirty;
    NodesOkSplit(m.hash, mem, nodes, pages, dirty);
    var a, s := addr, src;
    n, touched := 0, {};
    assert WithBytes(mem, addr, src.rest[..0]) == mem by { WithNoBytes(mem, addr); }
    assert SameOutside(mem, m.mem, {}) by { NothingOutside(mem); }
    assert Forgotten(nodes, m.nodes, Added({}, pages)) by { NothingAdded(pages); NothingForgotten(nodes); }
    while true
      invariant n <= |src.rest| && s.rest == src.rest[n..] && a == Wrap(addr, n)
      invariant s.CanFail() ==> src.CanFail()
      invariant m.Loose() && m.mem == WithBytes(mem, addr, src.rest[..n])
      invariant m.pages.Keys == pages + touched && m.dirty == dirty + touched
      invariant SameOutside(mem, m.mem, touched) && Forgotten(nodes, m.nodes, Added(touched, pages))
      invariant forall k :: k in touched ==> Touched(addr, n, k)
      invariant fresh(m.owner.Keys - old(m.owner.Keys))
      decreases |s.rest| + |s.steps|
    {
      ghost var before, was := m.mem, m.nodes;
      AddedNext(touched, pages, a / PAGE_SIZE, nodes, m.nodes);
      AddNext(pages, touched, a / PAGE_SIZE);
      AddNext(dirty, touched, a / PAGE_SIZE);
      var s', c, e := LoadChunk(m, a, s);
      SameOutsideNext(mem, before, m.mem, touched, a / PAGE_SIZE);
      TouchedNext(addr, n, c, touched);
      assert src.rest[..n] + s.rest[..c] == src.rest[..n + c];
      WithBytesAppend(mem, addr, src.rest[..n], s.rest[..c]);
      WrapWrap(addr, n, c);
      touched := touched + {a / PAGE_SIZE};
      s, n, a := s', n + c, Wrap(a, c);
      if e != NoError {
        err := if e == Eof then NoError else Failed;
        break;
      }
    }
    if NodesOk(m.hash, mem, nodes, pages, dirty) {
      Loaded(m.hash, mem, m.mem, nodes, m.nodes, pages, dirty, touched);
    }
    if RangeUncached(nodes, pages, addr, |src.rest|) {
      UncachedStaysSo(nodes, pages, addr, |src.rest|, n, touched);
    }
    broken := None;
    if NodesCoherent(m.hash, mem, nodes) {
      broken := StaleExactlyWhenCovered(m.hash, mem, m.mem, nodes, m.nodes, Added(touched, pages));
    }
  }

  lemma NothingOutside(mem: Flat)
    ensures SameOutside(mem, mem, {})
  {
  }

  lemma NothingAdded(pages: set<nat>)
    ensures Added({}, pages) == {}
  {
  }

  lemma Loaded(h: HashFn, mem: Flat, mem': Flat, nodes: Nodes, nodes': Nodes,
               pages: set<nat>, dirty: set<nat>, touched: set<nat>)
    requires NodesOk(h, mem, nodes, pages, dirty) && Forgotten(nodes, nodes', Added(touched, pages))
    requires NodesLoose(nodes', pages + touched, dirty + touched) && SameOutside(mem, mem', touched)
    ensures NodesOk(h, mem', nodes', pages + touched, dirty + touched) <==>
      forall k :: k in touched && k in pages ==> !StaysCached(nodes, Added(touched, pages), k)
  {
    hide NodesOk, NodesLoose, Forgotten, StaysCached;
    LoadKeepsNodesExactly(h, mem, mem', nodes, nodes', pages, dirty, touched);
  }

  /** Loading one byte into a page below a cached root leaves the old root in the cache: a state every step of which is
      reached by the operations themselves.  That root is wrong, unless the two memories contain a collision. */
  method LoadUnderCachedRoot(h: HashFn) returns (m: Memory, ghost was: Hash, ghost broken: Option<Collision>)
    ensures fresh(m) && m.Loose() && m.hash == h && m.mem == WithBytes(Zeros(WORD_RANGE), 0, [1])
    ensures 1 in m.nodes && m.nodes[1] == Some(was) && was == Root(h, Zeros(WORD_RANGE))
    ensures was != Root(h, m.mem) ==> !NodesCoherent(h, m.mem, m.nodes)
    ensures broken.Some? <==> was == Root(h, m.mem)
    ensures broken.Some? ==> CollidesIn(h, Zeros(WORD_RANGE), m.mem, LEAVES, broken.value)
  {
    hide NodesOk, NodesLoose, Memory.PagesOk, Memory.LastPagesOk, IsZeroTable, WithBytes, SameOutside, RangeUncached,
         StaysCached, LeavesKept, CollidesIn, Root;
    m := new Memory(h);
    m.ValidIsLoose();
    m.SetMemory(0, 0);
    assert WithWord(Zeros(WORD_RANGE), 0, 0) == Zeros(WORD_RANGE) by { WriteZero(); }
    RootIsAllocated(m);
    var root := m.MerkleRoot();
    was := root;
    ghost var nodes, pages, mem := m.nodes, m.pages.Keys, m.mem;
    m.ValidIsLoose();
    var n, err, touched, _ := SetMemoryRange(m, 0, ByteSource([1], []));
    assert n == 1 by { NeverFails(); }
    OnlyPageZero(touched, n);
    assert Added(touched, pages) == {};
    assert m.nodes[1] == nodes[1] && !CoversAny(1, {});
    assert [1][..1] == [1];
    broken := RootChanges(h, mem, m.mem);
    if was != Root(h, m.mem) {
      RootIsStale(h, m.mem, m.nodes, was);
    }
  }

  // Hashing a pair to its left half.
  function Left(left: Hash, right: Hash): Hash {
    left
  }

  lemma {:induction false} LeftmostLeaf(data: seq<Byte>, d: nat, m: nat)
    requires d <= m && Leaves(data, Pow2(m))
    ensures Pow2(d) < 2 * Pow2(m) && Tree(Left, data, Pow2(m), Pow2(d)) == Leaf(data, Pow2(m), 0)
    decreases m - d
  {
    if d < m {
      LeftmostLeaf(data, d + 1, m);
    }
  }

  /** A hash function for which the root left in the cache is wrong. */
  method LoadUnderCachedLeftRoot() returns (m: Memory, ghost was: Hash)
    ensures fresh(m) && m.Loose() && m.hash == Left && 1 in m.nodes && m.nodes[1] == Some(was)
    ensures was != Root(Left, m.mem) && !NodesCoherent(Left, m.mem, m.nodes)
  {
    hide NodesCoherent, NodesLoose, Memory.Loose, CollidesIn, WithBytes;
    ghost var broken;
    m, was, broken := LoadUnderCachedRoot(Left);
    LeftRootsDiffer(Zeros(WORD_RANGE), m.mem);
  }

  lemma LeftRootsDiffer(mem: Flat, mem': Flat)
    requires mem == Zeros(WORD_RANGE) && mem' == WithBytes(mem, 0, [1])
    ensures Root(Left, mem) != Root(Left, mem')
  {
    assert Pow2(27) == LEAVES && Pow2(0) == 1 by { TreeSizes(); }
    LeftmostLeaf(mem, 0, 27);
    LeftmostLeaf(mem', 0, 27);
    assert mem'[0] == 1 && mem[0] == 0;
    assert Leaf(mem, LEAVES, 0)[0] != Leaf(mem', LEAVES, 0)[0];
  }

  lemma RootIsStale(h: HashFn, mem: Flat, nodes: Nodes, was: Hash)
    requires 1 in nodes && nodes[1] == Some(was) && was != Root(h, mem)
    ensures !NodesCoherent(h, mem, nodes)
  {
  }

  lemma WriteZero()
    ensures WithWord(Zeros(WORD_RANGE), 0, 0) == Zeros(WORD_RANGE)
  {
    assert ToBytes(0) == [0, 0, 0, 0];
  }

  lemma NeverFails()
    ensures !ByteSource([1], []).CanFail()
  {
  }

  lemma RootIsAllocated(m: Memory)
    requires m.Valid() && 0 in m.pages
    ensures 1 in m.nodes
  {
    assert PAGES == 1 * PAGES;
    AboveOne(PAGES);
    assert Covers(1, 0);
  }

  lemma OnlyPageZero(touched: set<nat>, n: nat)
    requires n == 1 && forall k :: k in touched ==> Touched(0, n, k)
    ensures forall k :: k in touched ==> k == 0
  {
  }

  lemma RootChanges(h: HashFn, mem: Flat, mem': Flat) returns (broken: Option<Collision>)
    requires mem == Zeros(WORD_RANGE) && mem' == WithBytes(mem, 0, [1])
    ensures broken.Some? <==> Root(h, mem) == Root(h, mem')
    ensures broken.Some? ==> CollidesIn(h, mem, mem', LEAVES, broken.value)
  {
    assert mem'[0] == 1 && mem[0] == 0;
    assert Leaf(mem, LEAVES, 0)[0] != Leaf(mem', LEAVES, 0)[0];
    AboveOne(LEAVES);
    assert Above(1, LEAVES + 0);
    broken := NodeBindsLeaves(h, mem, mem', LEAVES, 1);
  }

  // ----- Reading a range -----

  datatype ReadResult = Bytes(n: nat) | End | Panic

  // The range runs past the end of memory and back into the page it starts in.
  predicate WrapsIntoOwnPage(addr: Word, count: Word) {
    addr + count >= WORD_RANGE && Wrap(addr, count) / PAGE_SIZE == addr / PAGE_SIZE
  }

  // Copy n bytes of an allocated page to the front of a buffer.
  method CopyFromPage(m: Memory, pageIndex: nat, start: nat, n: nat, dest: array<Byte>)
    requires m.Loose() && dest !in m.owner && pageIndex in m.pages && start + n <= PAGE_SIZE && n <= dest.Length
    modifies dest
    ensures m.Loose() && (old(m.Valid()) ==> m.Valid())
    ensures pageIndex < PAGES && dest[..] == PageOf(m.mem, pageIndex)[start..start + n] + old(dest[n..])
  {
    hide Memory.PagesOk, NodesOk, NodesLoose, IsZeroTable, Memory.LastPagesOk;
    m.PageIsOk(pageIndex);
    var p := m.pages[pageIndex];
    ghost var page := p.Data[..];
    forall i | 0 <= i < n {
      dest[i] := p.Data[start + i];
    }
    assert dest[..n] == page[start..start + n];
  }

  // What an absent page reads as.
  method ZeroFront(dest: array<Byte>, n: nat)
    requires n <= dest.Length
    modifies dest
    ensures dest[..] == Zeros(n) + old(dest[n..])
  {
    forall i | 0 <= i < n {
      dest[i] := 0;
    }
  }

  class MemReader {
    const m: Memory
    var addr: Word
    var count: Word

    constructor (m: Memory, addr: Word, count: Word)
      ensures this.m == m && this.addr == addr && this.count == count
    {
      this.m, this.addr, this.count := m, addr, count;
    }

    /** Copy the next bytes of the range, at most to the end of the page and of the buffer.  When the range wraps
        into its own first page, the slice of an allocated page panics, while for a page that is not allocated the
        length underflows to the whole rest of the range, which is taken for zeroes. */
    method Read(dest: array<Byte>) returns (r: ReadResult)
      requires m.Loose() && this !in m.owner && dest !in m.owner
      modifies this, dest, m`lastPageKey0, m`lastPageKey1, m`lastPage0, m`lastPage1
      ensures m.Loose() && (old(m.Valid()) ==> m.Valid())
      ensures r.End? <==> old(count) == 0
      ensures !r.Bytes? ==> addr == old(addr) && count == old(count) && dest[..] == old(dest[..])
      ensures r.Panic? <==>
        old(count) != 0 && WrapsIntoOwnPage(old(addr), old(count)) && old(addr) / PAGE_SIZE in m.pages
      ensures r.Bytes? ==>
        && r.n <= dest.Length && r.n <= old(count) && (dest.Length > 0 ==> r.n > 0)
        && addr == Wrap(old(addr), r.n) && count == old(count) - r.n
        && (if WrapsIntoOwnPage(old(addr), old(count))
            then r.n == Min(dest.Length, old(count)) && dest[..] == Zeros(r.n) + old(dest[r.n..])
            else dest[..] == BytesAt(m.mem, old(addr), r.n) + old(dest[r.n..]) && !WrapsIntoOwnPage(addr, count))
    {
      hide Memory.PagesOk, NodesOk, NodesLoose, IsZeroTable, BytesAt, PageOf, Memory.LastPagesOk, Wrap,
           WrapsIntoOwnPage;
      if count == 0 {
        return End;
      }
      var endAddr := Wrap(addr, count);
      var pageIndex, start, end := addr / PAGE_SIZE, addr % PAGE_SIZE, PAGE_SIZE;
      if pageIndex == endAddr / PAGE_SIZE {
        end := endAddr % PAGE_SIZE;
      }
      RangeEnd(addr, count);
      var p, ok := m.PageLookup(pageIndex);
      var n;
      if ok {
        if end < start {
          return Panic; // slice bounds out of range
        }
        n := Min(dest.Length, end - start);
        CopyFromPage(m, pageIndex, start, n, dest);
        BytesInPage(m.mem, addr, n);
      } else {
        var size := Sub(end, start); // the uint32 difference
        n := Min(dest.Length, size);
        ZeroFront(dest, n);
        AbsentBytes(m, addr, n);
      }
      addr := Wrap(addr, n);
      count := count - n;
      r := Bytes(n);
    }
  }

  lemma AbsentBytes(m: Memory, addr: Word, n: nat)
    requires m.Loose() && addr / PAGE_SIZE !in m.pages
    ensures addr % PAGE_SIZE + n <= PAGE_SIZE ==> BytesAt(m.mem, addr, n) == Zeros(n)
  {
    hide Memory.PagesOk, NodesLoose, IsZeroTable, BytesAt, Memory.LastPagesOk;
    if addr % PAGE_SIZE + n <= PAGE_SIZE {
      m.PagesZeroElsewhere();
      BytesInPage(m.mem, addr, n);
    }
  }

  // Where a read in the current page has to stop, and by how much it underflows if it has to stop before its start.
  lemma RangeEnd(addr: Word, count: Word)
    requires count > 0
    ensures var endAddr := Wrap(addr, count); var start := addr % PAGE_SIZE;
      var end := if addr / PAGE_SIZE == endAddr / PAGE_SIZE then endAddr % PAGE_SIZE else PAGE_SIZE;
      && (end < start <==> WrapsIntoOwnPage(addr, count))
      && (end < start ==> Sub(end, start) == count)
      && (start <= end ==>
            && 0 < end - start <= count && Sub(end, start) == end - start
            && forall n :: 0 <= n <= end - start ==> !WrapsIntoOwnPage(Wrap(addr, n), count - n))
  {
    RangeEndPlain(addr, count);
  }

  lemma RangeEndPlain(addr: Word, count: Word)
    requires count > 0
    ensures var endAddr := Wrap(addr, count); var start := addr % PAGE_SIZE;
      var end := if addr / PAGE_SIZE == endAddr / PAGE_SIZE then endAddr % PAGE_SIZE else PAGE_SIZE;
      && (end < start <==> WrapsIntoOwnPage(addr, count))
      && (end < start ==> end - start + WORD_RANGE == count)
      && (start <= end ==>
            && 0 < end - start <= count
            && forall n :: 0 <= n <= end - start ==> !WrapsIntoOwnPage(Wrap(addr, n), count - n))
  {
  }

  // After n bytes of a range that wraps into its own page it still does, as long as it has not left the page.
  lemma WrapGoesOn(addr: Word, count: Word, n: nat)
    requires WrapsIntoOwnPage(addr, count) && addr % PAGE_SIZE > Wrap(addr, count) % PAGE_SIZE && 0 < n <= count
    ensures var room := PAGE_SIZE - addr % PAGE_SIZE;
      if n < room then
        && WrapsIntoOwnPage(Wrap(addr, n), count - n) && Wrap(addr, n) / PAGE_SIZE == addr / PAGE_SIZE
        && PAGE_SIZE - Wrap(addr, n) % PAGE_SIZE == room - n
      else !WrapsIntoOwnPage(Wrap(addr, n), count - n)
  {
    var k, o := addr / PAGE_SIZE, addr % PAGE_SIZE;
    assert addr == PAGE_SIZE * k + o;
    var e: int := addr + count - WORD_RANGE;
    assert Wrap(addr, count) == e && e / PAGE_SIZE == k;
    if n < PAGE_SIZE - o {
      assert Wrap(addr, n) == addr + n && (addr + n) / PAGE_SIZE == k;
    } else if addr + n < WORD_RANGE {
      assert Wrap(addr, n) == addr + n && (addr + n) / PAGE_SIZE > k;
    }
  }

  lemma WrapIsBehind(addr: Word, count: Word)
    requires WrapsIntoOwnPage(addr, count)
    ensures count > 0 && addr % PAGE_SIZE > Wrap(addr, count) % PAGE_SIZE
  {
  }

  /** How many bytes of a range that wraps into its own first page, of which `room` bytes are left, are taken for
      zeroes when that page is not allocated: whole buffers until the page has been left. */
  function TakenForZero(bufferSize: nat -> nat, i: nat, room: nat, count: nat): (z: nat)
    requires forall k :: bufferSize(k) > 0
    ensures z <= count
    decreases room
  {
    var n := Min(bufferSize(i), count);
    if n == 0 || n >= room then n else n + TakenForZero(bufferSize, i + 1, room - n, count - n)
  }

  // How much of the range is taken for zeroes, if its first page is absent.
  ghost function Skipped(addr: Word, count: Word, bufferSize: nat -> nat): (z: nat)
    requires forall i :: bufferSize(i) > 0
    ensures z <= count
  {
    if WrapsIntoOwnPage(addr, count) then TakenForZero(bufferSize, 0, PAGE_SIZE - addr % PAGE_SIZE, count) else 0
  }

  // The bytes of a range as they come out of the buffers.
  ghost function Delivered(m: Memory, addr: Word, count: Word, bufferSize: nat -> nat): seq<Byte>
    requires forall k :: bufferSize(k) > 0
    reads m`mem
  {
    var z := Skipped(addr, count, bufferSize);
    Zeros(z) + BytesAt(m.mem, Wrap(addr, z), count - z)
  }

  /** What comes out is the range if and only if the bytes taken for zeroes are zero; none are, unless the range wraps
      into its own first page. */
  lemma DeliveredExactly(m: Memory, addr: Word, count: Word, bufferSize: nat -> nat)
    requires forall k :: bufferSize(k) > 0
    ensures var z := Skipped(addr, count, bufferSize);
      && (Delivered(m, addr, count, bufferSize) == BytesAt(m.mem, addr, count) <==> BytesAt(m.mem, addr, z) == Zeros(z))
      && (!WrapsIntoOwnPage(addr, count) ==> z == 0)
      && (WrapsIntoOwnPage(addr, count) ==> z == count || PAGE_SIZE - addr % PAGE_SIZE <= z < count)
  {
    hide BytesAt, WrapsIntoOwnPage, TakenForZero;
    var z := Skipped(addr, count, bufferSize);
    BytesAtAppend(m.mem, addr, z, count - z);
    var rest := BytesAt(m.mem, Wrap(addr, z), count - z);
    assert (Zeros(z) + rest)[..z] == Zeros(z) && (BytesAt(m.mem, addr, z) + rest)[..z] == BytesAt(m.mem, addr, z);
    TakenBound(bufferSize, 0, PAGE_SIZE - addr % PAGE_SIZE, count);
  }

  // What is taken for zeroes ends with the range or behind the page.
  lemma {:induction false} TakenBound(bufferSize: nat -> nat, i: nat, room: nat, count: nat)
    requires forall k :: bufferSize(k) > 0
    ensures var z := TakenForZero(bufferSize, i, room, count); z == count || room <= z < count
    decreases room
  {
    var n := Min(bufferSize(i), count);
    if 0 < n < room {
      TakenBound(bufferSize, i + 1, room - n, count - n);
    }
  }

  lemma BytesInPage(mem: Flat, addr: Word, n: nat)
    requires addr % PAGE_SIZE + n <= PAGE_SIZE
    ensures addr / PAGE_SIZE < PAGES
    ensures BytesAt(mem, addr, n) == PageOf(mem, addr / PAGE_SIZE)[addr % PAGE_SIZE..addr % PAGE_SIZE + n]
  {
    BytesAtNoWrap(mem, addr, n);
    SliceOfSlice(mem, PAGE_SIZE * (addr / PAGE_SIZE), PAGE_SIZE, addr % PAGE_SIZE, n);
  }

  // The slice of the first page panics.
  predicate ReadPanics(pages: set<nat>, addr: Word, count: Word) {
    WrapsIntoOwnPage(addr, count) && addr / PAGE_SIZE in pages
  }

  // How far a range has been read: at the start of a round, what is left begins at a and is c bytes long.
  ghost predicate ReadSoFar(mem: Flat, pages: set<nat>, addr: Word, count: Word, bufferSize: nat -> nat,
                            z: nat, round: nat, a: Word, c: Word, out: seq<Byte>)
    requires (forall i :: bufferSize(i) > 0) && z <= count
  {
    && c <= count && a == Wrap(addr, count - c)
    && if WrapsIntoOwnPage(a, c)
       then
         && WrapsIntoOwnPage(addr, count) && a / PAGE_SIZE == addr / PAGE_SIZE && out == Zeros(count - c)
         && z == count - c + TakenForZero(bufferSize, round, PAGE_SIZE - a % PAGE_SIZE, c)
       else
         && !ReadPanics(pages, addr, count) && z <= count - c
         && out == Zeros(z) + BytesAt(mem, Wrap(addr, z), count - c - z)
  }

  lemma ReadNothing(mem: Flat, pages: set<nat>, addr: Word, count: Word, bufferSize: nat -> nat)
    requires forall i :: bufferSize(i) > 0
    ensures ReadSoFar(mem, pages, addr, count, bufferSize, Skipped(addr, count, bufferSize), 0, addr, count, [])
  {
    hide BytesAt, TakenForZero, WrapsIntoOwnPage, Zeros, Wrap;
    NothingRead(mem, addr, count);
  }

  // One round of what MemReader.Read delivers.
  lemma ReadMore(mem: Flat, pages: set<nat>, addr: Word, count: Word, bufferSize: nat -> nat, z: nat, round: nat,
                 a: Word, c: Word, out: seq<Byte>, n: nat, bs: seq<Byte>)
    requires (forall i :: bufferSize(i) > 0) && z <= count
    requires ReadSoFar(mem, pages, addr, count, bufferSize, z, round, a, c, out) && !ReadPanics(pages, a, c)
    requires 0 < n <= c
    requires if WrapsIntoOwnPage(a, c) then n == Min(bufferSize(round), c) && bs == Zeros(n)
             else bs == BytesAt(mem, a, n) && !WrapsIntoOwnPage(Wrap(a, n), c - n)
    ensures ReadSoFar(mem, pages, addr, count, bufferSize, z, round + 1, Wrap(a, n), c - n, out + bs)
  {
    hide BytesAt, TakenForZero, WrapsIntoOwnPage, Zeros, Wrap;
    WrapWrap(addr, count - c, n);
    if WrapsIntoOwnPage(a, c) {
      WrapIsBehind(a, c);
      WrapGoesOn(a, c, n);
      ZerosJoin(count - c, n);
      TakenNext(bufferSize, round, PAGE_SIZE - a % PAGE_SIZE, c);
      NoBytesAt(mem, Wrap(addr, z));
      assert Zeros(z) + [] == Zeros(z);
    } else {
      BytesAtAppend(mem, Wrap(addr, z), count - c - z, n);
      WrapWrap(addr, z, count - c - z);
      assert out + bs == Zeros(z) + (BytesAt(mem, Wrap(addr, z), count - c - z) + bs);
    }
  }

  lemma ReadAll(m: Memory, addr: Word, count: Word, bufferSize: nat -> nat, round: nat, a: Word, out: seq<Byte>)
    requires forall i :: bufferSize(i) > 0
    requires var z := Skipped(addr, count, bufferSize);
      ReadSoFar(m.mem, m.pages.Keys, addr, count, bufferSize, z, round, a, 0, out)
    ensures out == Delivered(m, addr, count, bufferSize) && !ReadPanics(m.pages.Keys, addr, count)
  {
    hide BytesAt, TakenForZero, WrapsIntoOwnPage, Zeros, Wrap;
    NoWrapAtEnd(a);
    WrapNothing(addr);
    assert !WrapsIntoOwnPage(addr, count) ==> Zeros(0) + BytesAt(m.mem, addr, count) == BytesAt(m.mem, addr, count)
      by { NoZeros(); }
  }

  /** Drain a range through buffers of any non-zero sizes, as io.Copy and io.ReadAll do. */
  method ReadRange(m: Memory, addr: Word, count: Word, bufferSize: nat -> nat) returns (ok: bool, out: seq<Byte>)
    requires m.Loose() && forall i :: bufferSize(i) > 0
    modifies m`lastPageKey0, m`lastPageKey1, m`lastPage0, m`lastPage1
    ensures m.Loose() && (old(m.Valid()) ==> m.Valid())
    ensures ok <==> !ReadPanics(m.pages.Keys, addr, count)
    ensures ok ==> out == Delivered(m, addr, count, bufferSize)
  {
    hide Memory.Valid, Memory.Loose, BytesAt, WrapsIntoOwnPage, Wrap, Zeros, ReadSoFar, Skipped, Delivered;
    var r := new MemReader(m, addr, count);
    var round := 0;
    out := [];
    ghost var z, pages := Skipped(addr, count, bufferSize), m.pages.Keys;
    ReadNothing(m.mem, pages, addr, count, bufferSize);
    while true
      invariant fresh(r) && r.m == m && m.Loose() && (old(m.Valid()) ==> m.Valid()) && m.owner == old(m.owner)
      invariant ReadSoFar(m.mem, pages, addr, count, bufferSize, z, round, r.addr, r.count, out)
      decreases r.count
    {
      ghost var a, c := r.addr, r.count;
      var dest := new Byte[bufferSize(round)];
      var res := r.Read(dest);
      if res.End? {
        break;
      }
      if res.Panic? {
        StillPanics(m.mem, pages, addr, count, bufferSize, z, round, a, c, out);
        return false, [];
      }
      ReadMore(m.mem, pages, addr, count, bufferSize, z, round, a, c, out, res.n, dest[..res.n]);
      out := out + dest[..res.n];
      round := round + 1;
    }
    ReadAll(m, addr, count, bufferSize, round, r.addr, out);
    ok := true;
  }

  lemma StillPanics(mem: Flat, pages: set<nat>, addr: Word, count: Word, bufferSize: nat -> nat, z: nat, round: nat,
                    a: Word, c: Word, out: seq<Byte>)
    requires (forall i :: bufferSize(i) > 0) && z <= count && ReadPanics(pages, a, c)
    requires ReadSoFar(mem, pages, addr, count, bufferSize, z, round, a, c, out)
    ensures ReadPanics(pages, addr, count)
  {
    hide BytesAt, TakenForZero, WrapsIntoOwnPage, Zeros, Wrap;
  }

  lemma NoZeros()
    ensures Zeros(0) == []
  {
  }

  lemma WrapNothing(addr: Word)
    ensures Wrap(addr, 0) == addr
  {
  }

  lemma NothingRead(mem: Flat, addr: Word, count: Word)
    ensures Zeros(0) == [] && BytesAt(mem, addr, 0) == [] && Wrap(addr, 0) == addr
  {
  }

  lemma ZerosJoin(a: nat, b: nat)
    ensures Zeros(a) + Zeros(b) == Zeros(a + b)
  {
  }

  lemma TakenNext(bufferSize: nat -> nat, i: nat, room: nat, count: nat)
    requires forall k :: bufferSize(k) > 0
    requires count > 0
    ensures TakenForZero(bufferSize, i, room, count) ==
      (var n := Min(bufferSize(i), count);
       if n >= room then n else n + TakenForZero(bufferSize, i + 1, room - n, count - n))
  {
  }

  lemma NoBytesAt(mem: Flat, addr: Word)
    ensures BytesAt(mem, addr, 0) == []
  {
  }

  lemma NoWrapAtEnd(addr: Word)
    ensures !WrapsIntoOwnPage(addr, 0)
  {
  }
}
