/**
 What becomes of accepted blocks: over every run none is lost, and it is known
 exactly which steps repeat one and which upset their order.
 */
module ChannelBlocks {
  import opened Words
  import opened Wrappers
  import opened ChannelBuilding
  import opened Channels
  import opened ChannelManagement
  import opened ChannelRuns

  // ----- Where blocks are -----

  // How often a block occurs in a list.
  function Count(blocks: seq<Block>, b: Block): nat {
    multiset(blocks)[b]
  }

  lemma CountConcat(s: seq<Block>, t: seq<Block>, b: Block)
    ensures Count(s + t, b) == Count(s, b) + Count(t, b)
  {
  }

  // How often one channel stands for the block.
  function CountAt(chans: seq<Chan>, live: set<nat>, k: nat, b: Block): nat
    requires k < |chans|
  {
    if k in live then Count(chans[k].builder.blocks, b) else 0
  }

  // How often the live ones among the first n channels stand for the block.
  function LiveCount(chans: seq<Chan>, live: set<nat>, n: nat, b: Block): nat
    requires n <= |chans|
  {
    if n == 0 then 0 else LiveCount(chans, live, n - 1, b) + CountAt(chans, live, n - 1, b)
  }

  lemma {:induction false} LiveSame(chans: seq<Chan>, chans': seq<Chan>, live: set<nat>, live': set<nat>, n: nat, b: Block)
    requires n <= |chans| && n <= |chans'|
    requires forall k :: 0 <= k < n ==> CountAt(chans, live, k, b) == CountAt(chans', live', k, b)
    ensures LiveCount(chans, live, n, b) == LiveCount(chans', live', n, b)
  {
    if n > 0 {
      LiveSame(chans, chans', live, live', n - 1, b);
    }
  }

  lemma {:induction false} LiveChange(
    chans: seq<Chan>, chans': seq<Chan>, live: set<nat>, live': set<nat>, k: nat, n: nat, b: Block)
    requires k < n <= |chans| && n <= |chans'|
    requires forall i :: 0 <= i < n && i != k ==> CountAt(chans, live, i, b) == CountAt(chans', live', i, b)
    ensures LiveCount(chans', live', n, b) - CountAt(chans', live', k, b) ==
            LiveCount(chans, live, n, b) - CountAt(chans, live, k, b)
  {
    if k == n - 1 {
      LiveSame(chans, chans', live, live', n - 1, b);
    } else {
      LiveChange(chans, chans', live, live', k, n - 1, b);
    }
  }

  // Channels that are still to be submitted or are submitted in full.
  function Live(h: History): set<nat> {
    (set k | k in h.m.queue) + h.submitted
  }

  /** How often the batcher answers for a block: saved for a new channel, or in a live one. */
  function Total(h: History, b: Block): nat {
    LiveCount(h.m.chans, Live(h), |h.m.chans|, b) + Count(h.m.blocks, b)
  }

  // A submitted channel has left the queue and waits for nothing.
  ghost predicate SubmittedApart(h: History) {
    forall k :: k in h.submitted ==> k < |h.m.chans| && k !in h.m.queue && h.m.chans[k].pending == map[]
  }

  // ----- Repetitions -----

  // The manager after a request has made sure of a channel with space, if it gets there.
  predicate Fills(m: Manager, inp: TxInput)
    requires m.Ok()
  {
    m.FirstWithFrame(0).None? && m.blocks != [] && (m.HasSpace() || !inp.createFails)
  }

  function Ensured(m: Manager): (r: Manager)
    ensures r.HasSpace()
  {
    m.EnsureChannelWithSpace()
  }

  // What comes of the saved blocks of a request that fills a channel.
  function Adding(m: Manager, inp: TxInput): (Builder, nat, bool) {
    var r := Ensured(m);
    AddAll(r.cfg, r.chans[r.current.value].builder, r.blocks, inp.adds, 0)
  }

  /** Blocks one step counts twice: those a failing request has put into the channel but keeps saved, and those
      of a channel already dropped that a late confirmation brings back. */
  function Repeated(h: History, e: Event): seq<Block>
    requires h.m.Ok()
  {
    match e
    case Request(inp) =>
      if Fills(h.m, inp) && !Adding(h.m, inp).2 && Adding(h.m, inp).1 <= |h.m.blocks|
      then h.m.blocks[..Adding(h.m, inp).1]
      else []
    case TxConfirms(tx, n) =>
      if tx in h.m.txs && h.m.txs[tx] !in h.m.queue && h.m.chans[h.m.txs[tx]].TxConfirmed(h.m.cfg, tx, n).1
      then h.m.chans[h.m.txs[tx]].builder.blocks
      else []
    case _ => []
  }

  // What is answered for grows by what is accepted and what is repeated.
  ghost predicate Accounts(h: History, h': History, repeated: seq<Block>, b: Block) {
    Total(h', b) - Total(h, b) == Count(h'.accepted, b) - Count(h.accepted, b) + Count(repeated, b)
  }

  lemma NewBlockAccounts(h: History, block: Block, b: Block)
    requires h.m.Ok()
    ensures Accounts(h, Step(h, NewBlock(block)), [], b)
  {
    var h' := Step(h, NewBlock(block));
    LiveSame(h.m.chans, h'.m.chans, Live(h), Live(h'), |h.m.chans|, b);
    CountConcat(h.m.blocks, [block], b);
    CountConcat(h.accepted, [block], b);
  }

  lemma TxFailsAccounts(h: History, tx: FrameId, b: Block)
    requires h.m.Ok()
    ensures Accounts(h, Step(h, TxFails(tx)), [], b)
  {
    var h' := Step(h, TxFails(tx));
    LiveSame(h.m.chans, h'.m.chans, Live(h), Live(h'), |h.m.chans|, b);
  }

  lemma ConfirmKeepsBlocks(c: Chan, cfg: Config, tx: FrameId, n: Uint64)
    ensures c.Confirm(cfg, tx, n).builder.blocks == c.builder.blocks
    ensures c.TxConfirmed(cfg, tx, n).0.builder.blocks == c.builder.blocks
  {
  }

  lemma TxConfirmsAccounts(h: History, tx: FrameId, n: Uint64, b: Block)
    requires Consistent(h.m) && SubmittedApart(h)
    ensures Accounts(h, Step(h, TxConfirms(tx, n)), Repeated(h, TxConfirms(tx, n)), b)
  {
    hide Chan.Confirm, Chan.TimedOut, Chan.FullySubmitted, LiveCount, Without, Owned, Count, Increasing;
    var h' := Step(h, TxConfirms(tx, n));
    assert Count([], b) == 0 by { CountNone(b); }
    if tx in h.m.txs {
      var k := h.m.txs[tx];
      var c := h.m.chans[k];
      ConfirmKeepsBlocks(c, h.m.cfg, tx, n);
      WithoutElements(h.m.queue, k);
      assert tx in c.pending && k !in h.submitted;
      assert forall i :: i != k ==> (i in Live(h) <==> i in Live(h'));
      LiveChange(h.m.chans, h'.m.chans, Live(h), Live(h'), k, |h.m.chans|, b);
      CountConcat(c.TxConfirmed(h.m.cfg, tx, n).2, h.m.blocks, b);
    } else {
      LiveSame(h.m.chans, h'.m.chans, Live(h), Live(h'), |h.m.chans|, b);
    }
  }

  lemma CountNone(b: Block)
    ensures Count([], b) == 0
  {
  }

  lemma NextTxKeepsBlocks(m: Manager, k: Option<nat>)
    requires k.Some? ==> k.value < |m.chans|
    ensures var m' := m.NextTx(k).0;
      && m'.blocks == m.blocks && m'.queue == m.queue && |m'.chans| == |m.chans|
      && m'.base == m.base && m'.tip == m.tip
      && forall i :: 0 <= i < |m.chans| ==> m'.chans[i].builder.blocks == m.chans[i].builder.blocks
  {
  }

  // What a request does to blocks: the first n saved ones go into the channel k, and leave unless it fails.
  ghost predicate Moves(m: Manager, m': Manager, k: nat, n: nat, ok: bool) {
    && n <= |m.blocks| && k < |m'.chans| && |m.chans| <= |m'.chans| <= |m.chans| + 1 && |m'.chans| == k + 1
    && m'.base == m.base && m'.tip == m.tip
    && m'.blocks == (if ok then m.blocks[n..] else m.blocks)
    && (forall i :: 0 <= i < k ==> m'.chans[i].builder.blocks == m.chans[i].builder.blocks)
    && m'.chans[k].builder.blocks == (if k < |m.chans| then m.chans[k].builder.blocks else []) + m.blocks[..n]
    && k in m'.queue && (k < |m.chans| ==> k in m.queue)
    && (forall i :: i in m'.queue <==> i in m.queue || i == k)
  }

  lemma FillMoves(m: Manager, inp: TxInput)
    requires Consistent(m)
    ensures var r := Ensured(m); Moves(m, r.Fill(inp).0, r.current.value, Adding(m, inp).1, Adding(m, inp).2)
  {
    hide AddAll, Filled, OwnFrames, TxsMatch, Increasing, Manager.Fill;
    var r := Ensured(m);
    var k := r.current.value;
    EnsureConsistent(m);
    assert Owned(r.chans[k], k);
    FillChanges(r, inp);
    FilledKeeps(r, inp);
  }

  lemma RequestMoves(m: Manager, inp: TxInput)
    requires Consistent(m)
    ensures var m' := m.TxData(inp).0;
      if Fills(m, inp) then Moves(m, m', Ensured(m).current.value, Adding(m, inp).1, Adding(m, inp).2)
      else
        && m'.blocks == m.blocks && m'.queue == m.queue && |m'.chans| == |m.chans|
        && m'.base == m.base && m'.tip == m.tip
        && forall i :: 0 <= i < |m.chans| ==> m'.chans[i].builder.blocks == m.chans[i].builder.blocks
  {
    hide Manager.Fill, Manager.EnsureChannelWithSpace, Manager.NextTx, Consistent, Manager.FirstWithFrame, Adding, Moves;
    if m.FirstWithFrame(0).Some? {
      NextTxKeepsBlocks(m, m.FirstWithFrame(0));
    } else if Fills(m, inp) {
      var r := Ensured(m);
      FillMoves(m, inp);
      EnsureConsistent(m);
      FillConsistent(r, inp);
      var m1 := r.Fill(inp).0;
      NextTxKeepsBlocks(m1, m1.current);
      MovesOn(m, m1, m1.NextTx(m1.current).0, r.current.value, Adding(m, inp).1, Adding(m, inp).2);
    }
  }

  lemma MovesOn(m: Manager, m1: Manager, m2: Manager, k: nat, n: nat, ok: bool)
    requires Moves(m, m1, k, n, ok) && m2.blocks == m1.blocks && m2.queue == m1.queue && |m2.chans| == |m1.chans|
    requires m2.base == m1.base && m2.tip == m1.tip
    requires forall i :: 0 <= i < |m1.chans| ==> m2.chans[i].builder.blocks == m1.chans[i].builder.blocks
    ensures Moves(m, m2, k, n, ok)
  {
  }

  lemma RequestAccounts(h: History, inp: TxInput, b: Block)
    requires Consistent(h.m) && SubmittedApart(h)
    ensures Accounts(h, Step(h, Request(inp)), Repeated(h, Request(inp)), b)
  {
    hide Adding, Ensured, Consistent, Manager.TxData, Fills;
    RequestMoves(h.m, inp);
    var h' := Step(h, Request(inp));
    if Fills(h.m, inp) {
      MovesAccount(h, h', Ensured(h.m).current.value, Adding(h.m, inp).1, Adding(h.m, inp).2, b);
    } else {
      LiveSame(h.m.chans, h'.m.chans, Live(h), Live(h'), |h.m.chans|, b);
    }
  }

  lemma MovesAccount(h: History, h': History, k: nat, n: nat, ok: bool, b: Block)
    requires SubmittedApart(h) && Moves(h.m, h'.m, k, n, ok) && h'.submitted == h.submitted && h'.accepted == h.accepted
    ensures Accounts(h, h', if ok then [] else h.m.blocks[..n], b)
  {
    hide LiveCount, Count;
    var bs, live, live' := h.m.blocks, Live(h), Live(h');
    assert bs == bs[..n] + bs[n..];
    CountConcat(bs[..n], bs[n..], b);
    assert Count([], b) == 0 by { CountNone(b); }
    assert k in live' && forall i :: i != k ==> (i in live <==> i in live');
    if k < |h.m.chans| {
      CountConcat(h.m.chans[k].builder.blocks, bs[..n], b);
      LiveChange(h.m.chans, h'.m.chans, live, live', k, k + 1, b);
    } else {
      LiveSame(h.m.chans, h'.m.chans, live, live', k, b);
      LastLive(h'.m.chans, live', k, b);
      assert h'.m.chans[k].builder.blocks == bs[..n];
    }
  }

  lemma LastLive(chans: seq<Chan>, live: set<nat>, k: nat, b: Block)
    requires |chans| == k + 1
    ensures LiveCount(chans, live, k + 1, b) == LiveCount(chans, live, k, b) + CountAt(chans, live, k, b)
  {
  }

  // ----- Submitted channels rest -----

  lemma TxConfirmsApart(h: History, tx: FrameId, n: Uint64)
    requires Consistent(h.m) && SubmittedApart(h)
    ensures SubmittedApart(Step(h, TxConfirms(tx, n)))
  {
    hide Chan.TimedOut, Without, Owned, Increasing, Chan.Confirm, Chan.TxConfirmed;
    if tx in h.m.txs {
      var k := h.m.txs[tx];
      assert tx in h.m.chans[k].pending;
      WithoutElements(h.m.queue, k);
      DoneChannelRests(h.m.chans[k], h.m.cfg, tx, n);
    }
  }

  lemma DoneChannelRests(c: Chan, cfg: Config, tx: FrameId, n: Uint64)
    ensures var (c', done, _) := c.TxConfirmed(cfg, tx, n);
      done && !c.Confirm(cfg, tx, n).TimedOut(cfg) ==> c'.pending == map[]
  {
    hide Chan.TimedOut, Builder.FramePublished;
  }

  // A request touches channels of the queue only.
  lemma RequestLocal(m: Manager, inp: TxInput)
    requires Consistent(m)
    ensures var m' := m.TxData(inp).0;
      && |m.chans| <= |m'.chans|
      && forall i :: 0 <= i < |m.chans| && i !in m.queue ==> m'.chans[i] == m.chans[i] && i !in m'.queue
  {
    hide Manager.Fill, Manager.NextTx, Owned, TxsMatch, Increasing, Manager.FirstWithFrame;
    FirstWithFrameQueued(m, 0);
    if m.FirstWithFrame(0).Some? {
      NextTxLocal(m, m.FirstWithFrame(0));
    } else if Fills(m, inp) {
      EnsureConsistent(m);
      var r := Ensured(m);
      FillLocal(r, inp);
      var m1 := r.Fill(inp).0;
      NextTxLocal(m1, m1.current);
      assert r.current.value == r.queue[|r.queue| - 1];
    }
  }

  lemma RequestApart(h: History, inp: TxInput)
    requires Consistent(h.m) && SubmittedApart(h)
    ensures SubmittedApart(Step(h, Request(inp)))
  {
    hide Manager.TxData, Consistent;
    RequestLocal(h.m, inp);
  }

  lemma NextTxLocal(m: Manager, k: Option<nat>)
    requires k.Some? ==> k.value < |m.chans|
    ensures var m' := m.NextTx(k).0;
      && m'.queue == m.queue && |m'.chans| == |m.chans| && m'.current == m.current
      && forall i :: 0 <= i < |m.chans| && Some(i) != k ==> m'.chans[i] == m.chans[i]
  {
  }

  lemma FillLocal(m: Manager, inp: TxInput)
    requires m.HasSpace()
    ensures var m' := m.Fill(inp).0;
      && m'.queue == m.queue && |m'.chans| == |m.chans| && m'.current == m.current
      && forall i :: 0 <= i < |m.chans| && Some(i) != m.current ==> m'.chans[i] == m.chans[i]
  {
    hide AddAll, Filled, Manager.Fill;
    FillChanges(m, inp);
  }

  lemma StepApart(h: History, e: Event)
    requires Consistent(h.m) && SubmittedApart(h)
    ensures SubmittedApart(Step(h, e))
  {
    hide Consistent, SubmittedApart;
    match e
    case NewBlock(block) => assert SubmittedApart(Step(h, e)) by { QuietApart(h, e); }
    case Request(inp) => RequestApart(h, inp);
    case TxFails(tx) => TxFailsApart(h, tx);
    case TxConfirms(tx, n) => TxConfirmsApart(h, tx, n);
    case Cleared => QuietApart(h, e);
  }

  lemma QuietApart(h: History, e: Event)
    requires h.m.Ok() && SubmittedApart(h) && (e.NewBlock? || e.Cleared?)
    ensures SubmittedApart(Step(h, e))
  {
  }

  lemma TxFailsApart(h: History, tx: FrameId)
    requires Consistent(h.m) && SubmittedApart(h)
    ensures SubmittedApart(Step(h, TxFails(tx)))
  {
    hide Owned, QueueInOrder;
    if tx in h.m.txs {
      assert tx in h.m.chans[h.m.txs[tx]].pending;
    }
  }

  lemma {:induction false} RunApart(cfg: Config, es: seq<Event>)
    ensures SubmittedApart(Run(cfg, es))
    decreases |es|
  {
    hide SubmittedApart, Step;
    if es == [] {
      assert SubmittedApart(History(NewManager(cfg), [], {})) by { FreshApart(cfg); }
    } else {
      RunApart(cfg, es[..|es| - 1]);
      StepApart(Run(cfg, es[..|es| - 1]), es[|es| - 1]);
    }
  }

  lemma FreshApart(cfg: Config)
    ensures SubmittedApart(History(NewManager(cfg), [], {}))
  {
  }

  // ----- Theorems -----

  /** One step changes the blocks answered for by the block it accepts and the blocks it repeats. */
  lemma StepAccounts(h: History, e: Event, b: Block)
    requires Consistent(h.m) && SubmittedApart(h) && !e.Cleared?
    ensures Accounts(h, Step(h, e), Repeated(h, e), b)
  {
    hide Consistent, SubmittedApart, Accounts;
    match e
    case NewBlock(block) => NewBlockAccounts(h, block, b);
    case Request(inp) => RequestAccounts(h, inp, b);
    case TxFails(tx) => TxFailsAccounts(h, tx, b);
    case TxConfirms(tx, n) => TxConfirmsAccounts(h, tx, n, b);
  }

  lemma ClearedForgets(h: History, b: Block)
    requires h.m.Ok()
    ensures Total(Step(h, Cleared), b) == 0 && Step(h, Cleared).accepted == []
  {
    var h' := Step(h, Cleared);
    assert Live(h') == {};
    LiveNone(h'.m.chans, |h'.m.chans|, b);
  }

  lemma {:induction false} LiveNone(chans: seq<Chan>, n: nat, b: Block)
    requires n <= |chans|
    ensures LiveCount(chans, {}, n, b) == 0
  {
    if n > 0 {
      LiveNone(chans, n - 1, b);
    }
  }

  /** No accepted block is ever lost: through rollover of channels, failures, timeouts and requeuing, each one is
      saved, or in a channel still queued, or in one dropped as fully submitted, as often as it was accepted. */
  lemma {:induction false} AtLeastOnce(cfg: Config, es: seq<Event>, b: Block)
    ensures Count(Run(cfg, es).accepted, b) <= Total(Run(cfg, es), b)
    decreases |es|
  {
    hide Step, Consistent, Total, SubmittedApart, Count;
    if es == [] {
      CountNone(b);
    } else {
      var prev, e := Run(cfg, es[..|es| - 1]), es[|es| - 1];
      AtLeastOnce(cfg, es[..|es| - 1], b);
      RunApart(cfg, es[..|es| - 1]);
      if e.Cleared? {
        ClearedForgets(prev, b);
        CountNone(b);
      } else {
        StepAccounts(prev, e, b);
      }
    }
  }

  lemma {:induction false} SomeChannelCounts(chans: seq<Chan>, live: set<nat>, n: nat, b: Block)
    requires n <= |chans| && LiveCount(chans, live, n, b) > 0
    ensures exists k :: 0 <= k < n && k in live && b in chans[k].builder.blocks
  {
    if CountAt(chans, live, n - 1, b) == 0 {
      SomeChannelCounts(chans, live, n - 1, b);
    }
  }

  lemma AcceptedIsSomewhere(cfg: Config, es: seq<Event>, b: Block)
    requires b in Run(cfg, es).accepted
    ensures var h := Run(cfg, es);
      b in h.m.blocks
      || exists k :: 0 <= k < |h.m.chans| && (k in h.m.queue || k in h.submitted) && b in h.m.chans[k].builder.blocks
  {
    hide Run;
    var h := Run(cfg, es);
    AtLeastOnce(cfg, es, b);
    if b !in h.m.blocks {
      SomeChannelCounts(h.m.chans, Live(h), |h.m.chans|, b);
    }
  }

  // Every accepted block is answered for as often as it was accepted.
  ghost predicate ExactlyOnce(h: History) {
    forall b :: Total(h, b) == Count(h.accepted, b)
  }

  lemma SomethingCounts(blocks: seq<Block>)
    ensures blocks == [] <==> forall b :: Count(blocks, b) == 0
  {
    if blocks != [] {
      assert Count(blocks, blocks[0]) > 0;
    }
  }

  /** A step keeps the count exact if and only if it repeats nothing. */
  lemma ExactlyOnceStep(h: History, e: Event)
    requires Consistent(h.m) && SubmittedApart(h) && ExactlyOnce(h)
    ensures ExactlyOnce(Step(h, e)) <==> Repeated(h, e) == []
  {
    hide Consistent, SubmittedApart, Total, Step, Repeated, Count;
    var h' := Step(h, e);
    if e.Cleared? {
      forall b ensures Total(h', b) == Count(h'.accepted, b) {
        ClearedForgets(h, b);
        CountNone(b);
      }
      NothingRepeated(h);
    } else {
      SomethingCounts(Repeated(h, e));
      forall b ensures Total(h', b) - Count(h'.accepted, b) == Count(Repeated(h, e), b) {
        StepAccounts(h, e, b);
      }
    }
  }

  lemma NothingRepeated(h: History)
    requires h.m.Ok()
    ensures Repeated(h, Cleared) == []
  {
  }

  lemma {:induction false} ExactlyOnceRun(cfg: Config, es: seq<Event>)
    requires forall i :: 0 <= i < |es| ==> Repeated(Run(cfg, es[..i]), es[i]) == []
    ensures ExactlyOnce(Run(cfg, es))
    decreases |es|
  {
    hide Step, Consistent, SubmittedApart, Repeated, Total;
    if es == [] {
      assert ExactlyOnce(History(NewManager(cfg), [], {})) by { FreshOnce(cfg); }
    } else {
      var front := es[..|es| - 1];
      forall i | 0 <= i < |front| ensures Repeated(Run(cfg, front[..i]), front[i]) == [] {
        assert front[..i] == es[..i];
      }
      ExactlyOnceRun(cfg, front);
      RunApart(cfg, front);
      assert es[..|es| - 1] == front;
      ExactlyOnceStep(Run(cfg, front), es[|es| - 1]);
    }
  }

  lemma FreshOnce(cfg: Config)
    ensures ExactlyOnce(History(NewManager(cfg), [], {}))
  {
  }
}
