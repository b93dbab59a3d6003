/**
 Two short runs in which a block is answered for twice.
 */
module ChannelRepeats {
  import opened Words
  import opened Wrappers
  import opened ChannelBuilding
  import opened Channels
  import opened ChannelManagement
  import opened ChannelRuns
  import opened ChannelBlocks

  function Start(cfg: Config): History {
    History(NewManager(cfg), [], {})
  }

  /** A malformed block behind a good one: every request puts the good one into the channel again. */
  lemma MalformedBlockRepeats(cfg: Config, a: Block, b: Block, inp: TxInput, e: Uint64)
    requires (a.hash == 0 || b.parent == a.hash) && !inp.createFails
    requires inp.adds(0) == Added(e, false) && inp.adds(1) == Malformed
    ensures var h := Step(Step(Start(cfg), NewBlock(a)), NewBlock(b));
      && h.accepted == [a, b]
      && h.m.Ok() && Repeated(h, Request(inp)) == [a]
      && Step(h, Request(inp)).m.Ok()
      && var h' := Step(Step(h, Request(inp)), Request(inp));
         h'.m.blocks == [a, b] && |h'.m.chans| == 1 && h'.m.chans[0].builder.blocks == [a, a]
  {
    hide SeqWindowDeadline;
    var h := Step(Step(Start(cfg), NewBlock(a)), NewBlock(b));
    assert h.m.blocks == [a, b] && h.accepted == [a, b];
    FirstFill(h.m, inp, e);
    var h1 := Step(h, Request(inp));
    SecondFill(h1.m, inp, e);
  }

  // The good block goes in, the malformed one stops the request.
  lemma AddGoodThenMalformed(cfg: Config, b: Builder, blocks: seq<Block>, adds: nat -> AddOutcome, e: Uint64)
    requires |blocks| == 2 && !b.IsFull() && adds(0) == Added(e, false) && adds(1) == Malformed
    ensures var (b', n, ok) := AddAll(cfg, b, blocks, adds, 0);
      n == 1 && !ok && !b'.IsFull() && b'.blocks == b.blocks + [blocks[0]] && b'.frames == b.frames
  {
    hide SeqWindowDeadline;
    var b1 := b.AddBlock(cfg, blocks[0], adds(0)).0;
    assert AddAll(cfg, b, blocks, adds, 0) == AddAll(cfg, b1, blocks, adds, 1);
    assert AddAll(cfg, b1, blocks, adds, 1) == (b1, 1, false);
  }

  lemma FirstFill(m: Manager, inp: TxInput, e: Uint64)
    requires m.chans == [] && m.queue == [] && m.current == None && m.txs == map[] && |m.blocks| == 2 && !inp.createFails
    requires inp.adds(0) == Added(e, false) && inp.adds(1) == Malformed
    ensures m.Ok() && Fills(m, inp) && Adding(m, inp).1 == 1 && !Adding(m, inp).2
    ensures var m' := m.TxData(inp).0;
      && m'.Ok() && m'.queue == [0] && m'.current == Some(0) && m'.txs == map[] && m'.blocks == m.blocks && |m'.chans| == 1
      && !m'.chans[0].builder.IsFull()
      && m'.chans[0].builder.blocks == [m.blocks[0]] && m'.chans[0].builder.frames == []
  {
    hide AddAll;
    AddGoodThenMalformed(m.cfg, EMPTY, m.blocks, inp.adds, e);
  }

  lemma SecondFill(m: Manager, inp: TxInput, e: Uint64)
    requires |m.chans| == 1 && m.queue == [0] && m.current == Some(0) && m.txs == map[] && |m.blocks| == 2
    requires !m.chans[0].builder.IsFull() && m.chans[0].builder.frames == []
    requires inp.adds(0) == Added(e, false) && inp.adds(1) == Malformed
    ensures m.Ok()
    ensures var m' := m.TxData(inp).0;
      && m'.blocks == m.blocks && |m'.chans| == 1
      && m'.chans[0].builder.blocks == m.chans[0].builder.blocks + [m.blocks[0]]
  {
    hide AddAll;
    assert m.FirstWithFrame(1).None?;
    AddGoodThenMalformed(m.cfg, m.chans[0].builder, m.blocks, inp.adds, e);
  }

  // The compressor is full after the first block, and the encoder drains into three frames.
  predicate ThreeFrames(inp: TxInput) {
    && !inp.createFails && inp.adds(0).Added? && inp.adds(0).nowFull && !inp.enc.closeFails
    && |inp.enc.rest| == 3 && inp.enc.rest[0].Data? && inp.enc.rest[1].Data? && inp.enc.rest[2].LastData?
  }

  function FrameOf(inp: TxInput, i: nat): Frame
    requires ThreeFrames(inp) && i < 3
  {
    Frame(FrameId(0, i), inp.enc.rest[i].data)
  }

  // The only channel, full of the block a, with its frames from i on queued and those before pending.
  predicate Sending(m: Manager, a: Block, inp: TxInput, i: nat)
    requires ThreeFrames(inp) && 1 <= i <= 3
  {
    && m.queue == [0] && m.blocks == [] && |m.chans| == 1 && m.Ok()
    && (forall j :: 0 <= j < i ==> FrameId(0, j) in m.txs && m.txs[FrameId(0, j)] == 0)
    && var c := m.chans[0];
       && c.builder.blocks == [a] && c.builder.IsFull() && c.confirmed == map[]
       && |c.builder.frames| == 3 - i && (forall j :: i <= j < 3 ==> c.builder.frames[j - i] == FrameOf(inp, j))
       && (forall j :: 0 <= j < i ==> FrameId(0, j) in c.pending)
  }

  // A full builder drains into the three frames.
  lemma DrainsIntoThree(cfg: Config, b: Builder, inp: TxInput)
    requires ThreeFrames(inp) && b.IsFull() && b.frames == [] && b.numFrames == 0
    ensures var (d, ok) := b.RegisterL1Block(cfg, inp.l1Head).OutputFrames(0, inp.enc);
      ok && d.IsFull() && d.blocks == b.blocks && d.frames == [FrameOf(inp, 0), FrameOf(inp, 1), FrameOf(inp, 2)]
  {
    hide DurationDeadline;
    var pulls := inp.enc.rest;
    var d := b.RegisterL1Block(cfg, inp.l1Head);
    var d1 := d.AddFrame(0, pulls[0].data, false);
    var d2 := d1.AddFrame(0, pulls[1].data, false);
    var d3 := d2.AddFrame(0, pulls[2].data, true);
    assert pulls[1..][1..] == [pulls[2]];
    assert d2.PullAll(0, [pulls[2]]) == (d3, true);
    assert d1.PullAll(0, pulls[1..]) == (d3, true);
    assert d.PullAll(0, pulls) == (d3, true);
  }

  lemma AddsOne(cfg: Config, a: Block, inp: TxInput)
    requires ThreeFrames(inp)
    ensures var (b, n, ok) := AddAll(cfg, EMPTY, [a], inp.adds, 0);
      n == 1 && ok && b.IsFull() && b.blocks == [a] && b.frames == [] && b.numFrames == 0
  {
    hide SeqWindowDeadline;
  }

  lemma SendsFirst(m: Manager, a: Block, inp: TxInput)
    requires m.chans == [] && m.queue == [] && m.current == None && m.txs == map[] && m.blocks == [a]
    requires ThreeFrames(inp)
    ensures m.Ok() && Sending(m.TxData(inp).0, a, inp, 1) && m.TxData(inp).0.cfg == m.cfg
  {
    hide AddAll, Builder.RegisterL1Block, Builder.OutputFrames;
    AddsOne(m.cfg, a, inp);
    var b := AddAll(m.cfg, EMPTY, [a], inp.adds, 0).0;
    DrainsIntoThree(m.cfg, b, inp);
    var c := NewChan(0).(builder := b.RegisterL1Block(m.cfg, inp.l1Head).OutputFrames(0, inp.enc).0);
    var m1 := m.EnsureChannelWithSpace();
    assert m1.chans == [NewChan(0)] && m1.blocks == [a];
    var m2 := m1.ProcessBlocks(inp.adds).0;
    assert m2 == m1.(blocks := [], chans := [NewChan(0).(builder := b)]);
    var m3 := m2.RegisterL1Block(inp.l1Head);
    assert m3 == m2.(chans := [NewChan(0).(builder := b.RegisterL1Block(m.cfg, inp.l1Head))]);
    assert m3.chans[0 := c] == [c] && m3.OutputFrames(inp.enc) == (m3.(chans := [c]), true);
  }

  lemma SendsNext(m: Manager, a: Block, inp: TxInput, i: nat)
    requires ThreeFrames(inp) && 1 <= i < 3 && Sending(m, a, inp, i)
    ensures Sending(m.TxData(inp).0, a, inp, i + 1) && m.TxData(inp).0.cfg == m.cfg
  {
    assert m.FirstWithFrame(0) == Some(0);
    var c := m.chans[0];
    assert c.builder.frames[0] == FrameOf(inp, i);
  }

  lemma FirstInTime(m: Manager, a: Block, inp: TxInput, n0: Uint64)
    requires ThreeFrames(inp) && Sending(m, a, inp, 3) && 0 < m.cfg.channelTimeout
    ensures var m' := m.TxConfirmed(FrameId(0, 0), n0); var c := m'.chans[0];
      && m'.Ok() && m'.cfg == m.cfg && m'.queue == [0] && m'.blocks == [] && |m'.chans| == 1
      && c.builder.blocks == [a] && FrameId(0, 1) in c.pending && FrameId(0, 2) in c.pending
      && FrameId(0, 0) in c.confirmed && c.confirmed[FrameId(0, 0)] == n0
  {
    hide Builder.FramePublished;
    var tx, c := FrameId(0, 0), m.chans[0];
    assert tx in m.txs && m.txs[tx] == 0 && tx in c.pending;
    assert FrameId(0, 1) in c.pending && FrameId(0, 2) in c.pending;
    var c' := c.Confirm(m.cfg, tx, n0);
    assert FrameId(0, 1) in c'.pending && |c'.pending| > 0;
    assert c'.confirmed == map[tx := n0] && !c'.TimedOut(m.cfg);
    ConfirmKeepsBlocks(c, m.cfg, tx, n0);
  }

  /** From the start: a channel of three frames, all of them sent; one confirmed in time and two too late.  The first
      late confirmation drops the channel and brings its block back, the second brings it back once more. */
  lemma LateConfirmationRepeats(cfg: Config, a: Block, inp: TxInput, n0: Uint64, n: Uint64)
    requires ThreeFrames(inp) && 0 < cfg.channelTimeout && n0 + cfg.channelTimeout <= n
    ensures var h1 := Step(Step(Start(cfg), NewBlock(a)), Request(inp));
      && h1.m.Ok() && Step(h1, Request(inp)).m.Ok()
      && var h3 := Step(Step(h1, Request(inp)), Request(inp));
      && h3.m.Ok() && var h4 := Step(h3, TxConfirms(FrameId(0, 0), n0));
      && h4.m.Ok() && var h5 := Step(h4, TxConfirms(FrameId(0, 1), n));
      && h5.m.Ok() && var h6 := Step(h5, TxConfirms(FrameId(0, 2), n));
         h6.accepted == [a] && h5.m.blocks == [a] && h6.m.blocks == [a, a]
  {
    hide Sending, Consistent, Manager.TxData;
    var h0 := Step(Start(cfg), NewBlock(a));
    assert Start(cfg) == Run(cfg, []);
    StepConsistent(Start(cfg), NewBlock(a));
    SendsFirst(h0.m, a, inp);
    StepConsistent(h0, Request(inp));
    var h1 := Step(h0, Request(inp));
    SendsNext(h1.m, a, inp, 1);
    StepConsistent(h1, Request(inp));
    var h2 := Step(h1, Request(inp));
    SendsNext(h2.m, a, inp, 2);
    StepConsistent(h2, Request(inp));
    var h3 := Step(h2, Request(inp));
    FirstInTime(h3.m, a, inp, n0);
    StepConsistent(h3, TxConfirms(FrameId(0, 0), n0));
    LateConfirmationsRepeat(
      Step(h3, TxConfirms(FrameId(0, 0), n0)), 0, FrameId(0, 1), FrameId(0, 2), FrameId(0, 0), n);
  }

  /** Two transactions of a channel confirmed too late: the second comes when the channel has already been dropped,
      and brings its blocks back once more. */
  lemma LateConfirmationsRepeat(h: History, k: nat, first: FrameId, second: FrameId, x: FrameId, n: Uint64)
    requires Consistent(h.m) && k in h.m.queue && first != second
    requires first in h.m.chans[k].pending && second in h.m.chans[k].pending
    requires x in h.m.chans[k].confirmed && x != first && x != second
    requires n >= h.m.chans[k].confirmed[x] + h.m.cfg.channelTimeout
    ensures var h1 := Step(h, TxConfirms(first, n)); var own := h.m.chans[k].builder.blocks;
      && h1.m.Ok() && h1.m.blocks == own + h.m.blocks
      && Repeated(h, TxConfirms(first, n)) == [] && Repeated(h1, TxConfirms(second, n)) == own
      && Step(h1, TxConfirms(second, n)).m.blocks == own + (own + h.m.blocks)
  {
    hide Owned, Without, Increasing, Builder.FramePublished;
    var c := h.m.chans[k];
    assert Owned(c, k);
    assert first.channel == k && second.channel == k by { PendingOwned(c, k, first); PendingOwned(c, k, second); }
    var h1 := Step(h, TxConfirms(first, n));
    TooLate(c, h.m.cfg, x, first, n);
    WithoutElements(h.m.queue, k);
    var c1 := h1.m.chans[k];
    assert c1 == c.Confirm(h.m.cfg, first, n);
    TooLate(c1, h.m.cfg, x, second, n);
    ConfirmKeepsBlocks(c, h.m.cfg, first, n);
    ConfirmKeepsBlocks(c1, h.m.cfg, second, n);
    TxConfirmedConsistent(h.m, first, n);
  }

  lemma PendingOwned(c: Chan, k: nat, tx: FrameId)
    requires Owned(c, k) && tx in c.pending
    ensures tx.channel == k
  {
  }

  lemma TooLate(c: Chan, cfg: Config, x: FrameId, tx: FrameId, n: Uint64)
    requires x in c.confirmed && x != tx && n >= c.confirmed[x] + cfg.channelTimeout
    ensures c.Confirm(cfg, tx, n).TimedOut(cfg)
  {
    var d := c.Confirm(cfg, tx, n);
    assert x in d.confirmed && tx in d.confirmed && d.confirmed[tx] - d.confirmed[x] >= cfg.channelTimeout;
  }
}
