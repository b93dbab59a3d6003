/**
 Every run of the channel manager keeps its tables consistent.
 */
module ChannelRuns {
  import opened Words
  import opened Wrappers
  import opened ChannelBuilding
  import opened Channels
  import opened ChannelManagement

  datatype Event =
    | NewBlock(block: Block)
    | Request(inp: TxInput)
    | TxFails(tx: FrameId)
    | TxConfirms(tx: FrameId, n: Uint64)
    | Cleared

  /** The manager, the blocks it has accepted since the last Clear, and the channels it has dropped since then
      because they were fully submitted. */
  datatype History = History(m: Manager, accepted: seq<Block>, submitted: set<nat>)

  // The confirmation ends a channel that has not timed out.
  predicate Submits(m: Manager, tx: FrameId, n: Uint64)
    requires m.Ok()
  {
    tx in m.txs
    && var c := m.chans[m.txs[tx]];
       c.TxConfirmed(m.cfg, tx, n).1 && !c.Confirm(m.cfg, tx, n).TimedOut(m.cfg)
  }

  function Step(h: History, e: Event): History
    requires h.m.Ok()
  {
    match e
    case NewBlock(block) =>
      var (m, ok) := h.m.AddL2Block(block);
      h.(m := m, accepted := if ok then h.accepted + [block] else h.accepted)
    case Request(inp) => h.(m := h.m.TxData(inp).0)
    case TxFails(tx) => h.(m := h.m.TxFailed(tx))
    case TxConfirms(tx, n) =>
      History(
        h.m.TxConfirmed(tx, n), h.accepted,
        if Submits(h.m, tx, n) then h.submitted + {h.m.txs[tx]} else h.submitted)
    case Cleared => History(h.m.Clear(), [], {})
  }

  function Run(cfg: Config, es: seq<Event>): (h: History)
    ensures Consistent(h.m)
  {
    if es == [] then History(NewManager(cfg), [], {})
    else
      var prev := Run(cfg, es[..|es| - 1]);
      StepConsistent(prev, es[|es| - 1]);
      Step(prev, es[|es| - 1])
  }

  // ----- Consistency -----

  // The channel k holds frames of its own only.
  ghost predicate Owned(c: Chan, k: nat) {
    && c.id == k
    && OwnFrames(k, c.builder.frames)
    && forall tx :: tx in c.pending ==> tx.channel == k && c.pending[tx].id == tx
  }

  // The transaction table and the channels since the last Clear agree on what is pending where.
  ghost predicate TxsMatch(txs: map<FrameId, nat>, chans: seq<Chan>, base: nat) {
    && (forall tx :: tx in txs ==>
          base <= tx.channel < |chans| && txs[tx] == tx.channel && tx in chans[tx.channel].pending)
    && (forall k, tx :: base <= k < |chans| && tx in chans[k].pending ==> tx in txs)
  }

  predicate Increasing(queue: seq<nat>) {
    forall i, j :: 0 <= i < j < |queue| ==> queue[i] < queue[j]
  }

  // The current channel is the newest one and last in the queue; all others in the queue are full.
  ghost predicate QueueInOrder(queue: seq<nat>, current: Option<nat>, chans: seq<Chan>, base: nat) {
    && Increasing(queue)
    && (forall i :: 0 <= i < |queue| ==> base <= queue[i] < |chans|)
    && (current.Some? ==> queue != [] && current.value == |chans| - 1 == queue[|queue| - 1])
    && (forall k :: k in queue && current != Some(k) ==> chans[k].builder.IsFull())
  }

  ghost predicate Consistent(m: Manager)
    ensures Consistent(m) ==> m.Ok()
  {
    && m.base <= |m.chans|
    && (forall k :: 0 <= k < |m.chans| ==> Owned(m.chans[k], k))
    && TxsMatch(m.txs, m.chans, m.base)
    && QueueInOrder(m.queue, m.current, m.chans, m.base)
  }

  // ----- Changing one channel -----

  // The new channel k keeps what the others rely on.
  lemma ChannelChanges(m: Manager, k: nat, c: Chan, txs: map<FrameId, nat>)
    requires Consistent(m) && k < |m.chans| && Owned(c, k)
    requires m.chans[k].builder.IsFull() ==> c.builder.IsFull()
    requires k >= m.base ==> forall tx: FrameId :: tx.channel == k ==> (tx in txs <==> tx in c.pending)
    requires k < m.base ==> forall tx: FrameId :: tx.channel == k ==> tx !in txs
    requires forall tx: FrameId :: tx.channel != k ==> (tx in txs <==> tx in m.txs)
    requires forall tx :: tx in txs ==> txs[tx] == tx.channel
    ensures Consistent(m.(txs := txs, chans := m.chans[k := c]))
  {
    hide OwnFrames, Owned, TxsMatch, QueueInOrder;
    assert Owned(m.chans[k], k);
    TxsChange(m.txs, txs, m.chans, m.base, k, c);
    QueueStays(m.queue, m.current, m.chans, m.base, k, c);
  }

  lemma TxsChange(was: map<FrameId, nat>, txs: map<FrameId, nat>, chans: seq<Chan>, base: nat, k: nat, c: Chan)
    requires TxsMatch(was, chans, base) && k < |chans| && Owned(c, k)
    requires forall i :: 0 <= i < |chans| ==> Owned(chans[i], i)
    requires k >= base ==> forall tx: FrameId :: tx.channel == k ==> (tx in txs <==> tx in c.pending)
    requires k < base ==> forall tx: FrameId :: tx.channel == k ==> tx !in txs
    requires forall tx: FrameId :: tx.channel != k ==> (tx in txs <==> tx in was)
    requires forall tx :: tx in txs ==> txs[tx] == tx.channel
    ensures TxsMatch(txs, chans[k := c], base)
  {
    hide OwnFrames;
    var chans' := chans[k := c];
    forall tx | tx in txs ensures base <= tx.channel < |chans'| && tx in chans'[tx.channel].pending {
      if tx.channel != k {
        assert tx in was;
      }
    }
    forall j, tx | base <= j < |chans'| && tx in chans'[j].pending ensures tx in txs {
      assert Owned(chans'[j], j);
    }
  }

  lemma QueueStays(queue: seq<nat>, current: Option<nat>, chans: seq<Chan>, base: nat, k: nat, c: Chan)
    requires QueueInOrder(queue, current, chans, base) && k < |chans|
    requires chans[k].builder.IsFull() ==> c.builder.IsFull()
    ensures QueueInOrder(queue, current, chans[k := c], base)
  {
    hide Increasing;
  }

  lemma BuilderChanges(m: Manager, k: nat, b: Builder)
    requires Consistent(m) && k < |m.chans| && OwnFrames(k, b.frames)
    requires m.chans[k].builder.IsFull() ==> b.IsFull()
    ensures Consistent(m.WithBuilder(k, b))
  {
    hide OwnFrames, Increasing;
    var c := m.chans[k].(builder := b);
    assert Owned(m.chans[k], k);
    forall tx: FrameId | tx.channel == k && tx in m.txs ensures k >= m.base && tx in c.pending {
    }
    ChannelChanges(m, k, c, m.txs);
  }

  lemma NextTxConsistent(m: Manager, k: Option<nat>)
    requires Consistent(m) && (k.Some? ==> m.base <= k.value < |m.chans|)
    ensures Consistent(m.NextTx(k).0)
  {
    hide Increasing, QueueInOrder;
    if k.Some? && m.chans[k.value].builder.frames != [] {
      var c, f := m.chans[k.value].NextTx().0, m.chans[k.value].NextTx().1;
      assert Owned(m.chans[k.value], k.value);
      assert f in m.chans[k.value].builder.frames;
      var txs := m.txs[f.id := k.value];
      ChannelChanges(m, k.value, c, txs);
    }
  }

  lemma TxFailedConsistent(m: Manager, tx: FrameId)
    requires Consistent(m)
    ensures Consistent(m.TxFailed(tx))
  {
    hide Increasing, QueueInOrder;
    if tx in m.txs {
      assert Owned(m.chans[tx.channel], tx.channel);
      ChannelChanges(m, tx.channel, m.chans[tx.channel].TxFailed(tx), m.txs - {tx});
    }
  }

  lemma ConfirmConsistent(m: Manager, tx: FrameId, n: Uint64)
    requires Consistent(m) && tx in m.txs
    ensures Consistent(m.(txs := m.txs - {tx}, chans := m.chans[tx.channel := m.chans[tx.channel].Confirm(m.cfg, tx, n)]))
  {
    hide Increasing, QueueInOrder, Builder.FramePublished;
    var k := tx.channel;
    assert Owned(m.chans[k], k);
    PublishedKeeps(m.cfg, m.chans[k].builder, n);
    ChannelChanges(m, k, m.chans[k].Confirm(m.cfg, tx, n), m.txs - {tx});
  }

  lemma PublishedKeeps(cfg: Config, b: Builder, n: Uint64)
    ensures var b' := b.FramePublished(cfg, n);
      b'.frames == b.frames && b'.fullErr == b.fullErr && b'.blocks == b.blocks && b'.numFrames == b.numFrames
      && b'.finished == b.finished
  {
  }

  lemma {:induction false} WithoutElements(queue: seq<nat>, k: nat)
    requires Increasing(queue)
    ensures Increasing(Without(queue, k))
    ensures forall x :: x in Without(queue, k) <==> x in queue && x != k
    ensures queue != [] && queue[|queue| - 1] != k ==>
      Without(queue, k) != [] && Without(queue, k)[|Without(queue, k)| - 1] == queue[|queue| - 1]
  {
    if queue != [] {
      var rest := queue[1..];
      assert queue == [queue[0]] + rest;
      forall x | x in rest ensures x > queue[0] {
        var i :| 0 <= i < |rest| && rest[i] == x;
        assert queue[i + 1] == x;
      }
      if queue[0] != k {
        WithoutElements(rest, k);
        var w := Without(rest, k);
        assert Without(queue, k) == [queue[0]] + w;
        assert forall i :: 0 <= i < |w| ==> w[i] in rest;
      }
    }
  }

  lemma RemoveConsistent(m: Manager, k: nat)
    requires Consistent(m)
    ensures Consistent(m.Remove(k))
  {
    hide Increasing, TxsMatch, Owned, Without;
    WithoutElements(m.queue, k);
    var queue := Without(m.queue, k);
    forall i | 0 <= i < |queue| ensures m.base <= queue[i] < |m.chans| {
      assert queue[i] in m.queue;
    }
  }

  lemma TxConfirmedConsistent(m: Manager, tx: FrameId, n: Uint64)
    requires Consistent(m)
    ensures Consistent(m.TxConfirmed(tx, n))
  {
    hide Increasing, QueueInOrder, Owned, Chan.TimedOut, Chan.FullySubmitted, Manager.Remove, Chan.Confirm;
    if tx in m.txs {
      ConfirmConsistent(m, tx, n);
      var k := tx.channel;
      var (c, done, back) := m.chans[k].TxConfirmed(m.cfg, tx, n);
      var m' := m.(txs := m.txs - {tx}, chans := m.chans[k := c], blocks := back + m.blocks);
      assert Consistent(m');
      RemoveConsistent(m', k);
    }
  }

  // ----- Filling the current channel -----

  lemma EnsureConsistent(m: Manager)
    requires Consistent(m)
    ensures Consistent(m.EnsureChannelWithSpace())
    ensures var m' := m.EnsureChannelWithSpace(); m'.current.Some? && m'.HasSpace()
  {
    hide OwnFrames;
    if !m.HasSpace() {
      var m', n := m.EnsureChannelWithSpace(), |m.chans|;
      assert m'.queue[|m'.queue| - 1] == n;
      forall k | k in m'.queue && m'.current != Some(k) ensures m'.chans[k].builder.IsFull() {
        assert k in m.queue && m'.chans[k] == m.chans[k];
      }
      forall k, tx | m.base <= k < |m'.chans| && tx in m'.chans[k].pending ensures tx in m'.txs {
        assert k < n;
        assert m'.chans[k] == m.chans[k];
      }
      forall k | 0 <= k < |m'.chans| ensures Owned(m'.chans[k], k) {
        if k < n {
          assert m'.chans[k] == m.chans[k];
        } else {
          assert OwnFrames(n, []) by { NoFramesOwned(n); }
        }
      }
    }
  }

  lemma NoFramesOwned(k: nat)
    ensures OwnFrames(k, [])
  {
  }

  lemma {:induction false} AddAllKeeps(cfg: Config, b: Builder, blocks: seq<Block>, adds: nat -> AddOutcome, i: nat)
    requires i <= |blocks|
    ensures var b' := AddAll(cfg, b, blocks, adds, i).0;
      b'.frames == b.frames && b'.numFrames == b.numFrames && b'.finished == b.finished && (b.IsFull() ==> b'.IsFull())
    ensures !AddAll(cfg, b, blocks, adds, i).2 ==> !AddAll(cfg, b, blocks, adds, i).0.IsFull()
    decreases |blocks| - i
  {
    hide SeqWindowDeadline;
    if i < |blocks| {
      var (b', r) := b.AddBlock(cfg, blocks[i], adds(i));
      if r == AddOk && !b'.IsFull() {
        AddAllKeeps(cfg, b', blocks, adds, i + 1);
      }
    }
  }

  lemma RegisterKeeps(cfg: Config, b: Builder, n: Uint64)
    ensures var b' := b.RegisterL1Block(cfg, n);
      b'.frames == b.frames && b'.numFrames == b.numFrames && b'.blocks == b.blocks && (b.IsFull() ==> b'.IsFull())
      && b'.finished == b.finished
  {
  }

  lemma OutputKeeps(id: nat, b: Builder, enc: Encoder)
    requires OwnFrames(id, b.frames)
    ensures var b' := b.OutputFrames(id, enc).0;
      OwnFrames(id, b'.frames) && b'.blocks == b.blocks && (b.IsFull() ==> b'.IsFull()) && b.numFrames <= b'.numFrames
  {
    hide OwnFrames, Builder.PullAll;
    PullAllOwnFrames(id, b, enc.ready);
    PullAllOwnFrames(id, b, enc.rest);
    OutputFramesKeeps(id, b, enc);
    PullAllGrows(id, b, enc.ready);
    PullAllGrows(id, b, enc.rest);
  }

  // The builder of the current channel after a request, as far as it got.
  function Filled(m: Manager, inp: TxInput): (Builder, bool)
    requires m.HasSpace()
  {
    var k := m.current.value;
    var (b, _, ok) := AddAll(m.cfg, m.chans[k].builder, m.blocks, inp.adds, 0);
    if !ok then (b, false) else b.RegisterL1Block(m.cfg, inp.l1Head).OutputFrames(m.chans[k].id, inp.enc)
  }

  // Fill changes the builder of the current channel and drops the blocks it took, unless one failed.
  lemma FillChanges(m: Manager, inp: TxInput)
    requires m.HasSpace()
    ensures var (_, n, ok) := AddAll(m.cfg, m.chans[m.current.value].builder, m.blocks, inp.adds, 0);
      n <= |m.blocks|
      && m.Fill(inp) ==
         (m.WithBuilder(m.current.value, Filled(m, inp).0).(blocks := if ok then m.blocks[n..] else m.blocks),
          Filled(m, inp).1)
  {
    hide AddAll, Builder.RegisterL1Block, Builder.OutputFrames;
    var k := m.current.value;
    AddAllCount(m.cfg, m.chans[k].builder, m.blocks, inp.adds, 0);
    var m1 := m.ProcessBlocks(inp.adds).0;
    var m2 := m1.RegisterL1Block(inp.l1Head);
    assert m1.chans[k] == m.chans[k].(builder := m1.chans[k].builder);
    assert m2.OutputFrames(inp.enc).0.chans == m.chans[k := m2.OutputFrames(inp.enc).0.chans[k]];
  }

  lemma FilledKeeps(m: Manager, inp: TxInput)
    requires m.HasSpace() && m.chans[m.current.value].id == m.current.value
    requires OwnFrames(m.current.value, m.chans[m.current.value].builder.frames)
    ensures var b := m.chans[m.current.value].builder;
      var (_, n, _) := AddAll(m.cfg, b, m.blocks, inp.adds, 0);
      && OwnFrames(m.current.value, Filled(m, inp).0.frames)
      && n <= |m.blocks| && Filled(m, inp).0.blocks == b.blocks + m.blocks[..n]
      && b.numFrames <= Filled(m, inp).0.numFrames
  {
    hide AddAll, Builder.RegisterL1Block, Builder.OutputFrames, OwnFrames;
    var k := m.current.value;
    var b := m.chans[k].builder;
    AddAllCount(m.cfg, b, m.blocks, inp.adds, 0);
    AddAllKeeps(m.cfg, b, m.blocks, inp.adds, 0);
    var (b', n, ok) := AddAll(m.cfg, b, m.blocks, inp.adds, 0);
    RegisterKeeps(m.cfg, b', inp.l1Head);
    OutputKeeps(k, b'.RegisterL1Block(m.cfg, inp.l1Head), inp.enc);
  }

  lemma FillConsistent(m: Manager, inp: TxInput)
    requires Consistent(m) && m.HasSpace()
    ensures Consistent(m.Fill(inp).0)
  {
    hide AddAll, Filled, OwnFrames, TxsMatch, QueueInOrder, Manager.Fill;
    var k := m.current.value;
    assert Owned(m.chans[k], k);
    FillChanges(m, inp);
    FilledKeeps(m, inp);
    BuilderChanges(m, k, Filled(m, inp).0);
  }

  lemma {:induction false} FirstWithFrameQueued(m: Manager, i: nat)
    requires m.Ok() && i <= |m.queue|
    ensures m.FirstWithFrame(i).Some? ==> m.FirstWithFrame(i).value in m.queue
    decreases |m.queue| - i
  {
    if i < |m.queue| {
      FirstWithFrameQueued(m, i + 1);
    }
  }

  lemma TxDataConsistent(m: Manager, inp: TxInput)
    requires Consistent(m)
    ensures Consistent(m.TxData(inp).0)
  {
    hide Manager.Fill, Manager.EnsureChannelWithSpace, Manager.NextTx, Owned, TxsMatch, Increasing, Manager.FirstWithFrame;
    FirstWithFrameQueued(m, 0);
    if m.FirstWithFrame(0).Some? {
      NextTxConsistent(m, m.FirstWithFrame(0));
    } else {
      EnsureConsistent(m);
      var m1 := m.EnsureChannelWithSpace();
      FillConsistent(m1, inp);
      var m2 := m1.Fill(inp).0;
      assert m2.current.Some? ==> m2.current.value == m2.queue[|m2.queue| - 1];
      NextTxConsistent(m2, m2.current);
    }
  }

  lemma ClearConsistent(m: Manager)
    requires Consistent(m)
    ensures Consistent(m.Clear())
  {
  }

  lemma AddL2BlockConsistent(m: Manager, block: Block)
    requires Consistent(m)
    ensures Consistent(m.AddL2Block(block).0)
  {
  }

  lemma StepConsistent(h: History, e: Event)
    requires Consistent(h.m)
    ensures Consistent(Step(h, e).m)
  {
    hide Consistent;
    match e
    case NewBlock(block) => AddL2BlockConsistent(h.m, block);
    case Request(inp) => TxDataConsistent(h.m, inp);
    case TxFails(tx) => TxFailedConsistent(h.m, tx);
    case TxConfirms(tx, n) => TxConfirmedConsistent(h.m, tx, n);
    case Cleared => ClearConsistent(h.m);
  }

  // ----- What consistency says -----

  /** In every reachable state: a transaction is known exactly when one channel since the last Clear has it
      pending, it is that channel's, and no other channel at all has it; the queue has no duplicates; the current
      channel is missing or last in the queue, and every other one there is full. */
  lemma ReachableTables(cfg: Config, es: seq<Event>, tx: FrameId)
    ensures var m := Run(cfg, es).m;
      && (tx in m.txs <==> exists k :: m.base <= k < |m.chans| && tx in m.chans[k].pending)
      && (tx in m.txs ==> m.txs[tx] < |m.chans| && forall k :: 0 <= k < |m.chans| ==>
            (tx in m.chans[k].pending <==> k == m.txs[tx]))
      && (forall i, j :: 0 <= i < j < |m.queue| ==> m.queue[i] != m.queue[j])
      && (forall i :: 0 <= i < |m.queue| ==> m.queue[i] < |m.chans|)
      && (m.current.Some? ==> |m.queue| > 0 && m.current.value == m.queue[|m.queue| - 1])
      && (forall i :: 0 <= i < |m.queue| && Some(m.queue[i]) != m.current ==> m.chans[m.queue[i]].builder.IsFull())
  {
    hide Run, OwnFrames;
    var m := Run(cfg, es).m;
    forall k | 0 <= k < |m.chans| && tx in m.chans[k].pending ensures tx.channel == k {
      assert Owned(m.chans[k], k);
    }
  }
}
