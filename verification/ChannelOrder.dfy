/**
 The order of accepted blocks: the channels in order of creation, followed by
 the saved blocks, spell out the accepted chain, and it is known exactly which
 steps break that.
 */
module ChannelOrder {
  import opened Words
  import opened Wrappers
  import opened ChannelBuilding
  import opened Channels
  import opened ChannelManagement
  import opened ChannelRuns
  import opened ChannelBlocks

  // The blocks of the channels from..n in order of creation.
  function Joined(chans: seq<Chan>, from: nat, n: nat): seq<Block>
    requires n <= |chans|
  {
    if n <= from then [] else Joined(chans, from, n - 1) + chans[n - 1].builder.blocks
  }

  lemma {:induction false} JoinedSame(chans: seq<Chan>, chans': seq<Chan>, from: nat, n: nat)
    requires n <= |chans| && n <= |chans'|
    requires forall k :: from <= k < n ==> chans'[k].builder.blocks == chans[k].builder.blocks
    ensures Joined(chans', from, n) == Joined(chans, from, n)
  {
    if n > from {
      JoinedSame(chans, chans', from, n - 1);
    }
  }

  // The blocks since the last Clear as the manager would submit them.
  function Spelled(m: Manager): seq<Block> {
    Joined(m.chans, m.base, |m.chans|) + m.blocks
  }

  // ----- One step -----

  /** A confirmation times the channel out and its blocks go back to the saved ones, or a block fails in a request
      after others went in. */
  predicate Upsets(m: Manager, e: Event)
    requires m.Ok()
  {
    match e
    case Request(inp) => Fills(m, inp) && !Adding(m, inp).2 && Adding(m, inp).1 > 0
    case TxConfirms(tx, n) =>
      tx in m.txs
      && var c := m.chans[m.txs[tx]];
         tx in c.pending && c.Confirm(m.cfg, tx, n).TimedOut(m.cfg) && c.builder.blocks != []
    case _ => false
  }

  lemma TxConfirmsSpells(h: History, tx: FrameId, n: Uint64)
    requires Consistent(h.m)
    ensures var m' := h.m.TxConfirmed(tx, n);
      if tx in h.m.txs && Upsets(h.m, TxConfirms(tx, n))
      then |Spelled(m')| > |Spelled(h.m)|
      else Spelled(m') == Spelled(h.m)
  {
    hide Chan.TimedOut, Chan.FullySubmitted, Chan.Confirm, Without, Owned, QueueInOrder, Joined;
    if tx in h.m.txs {
      var c := h.m.chans[h.m.txs[tx]];
      ConfirmKeepsBlocks(c, h.m.cfg, tx, n);
      JoinedSame(h.m.chans, h.m.TxConfirmed(tx, n).chans, h.m.base, |h.m.chans|);
      assert [] + h.m.blocks == h.m.blocks;
    }
  }

  lemma TxFailsSpells(m: Manager, tx: FrameId)
    requires Consistent(m)
    ensures Spelled(m.TxFailed(tx)) == Spelled(m)
  {
    hide Owned, QueueInOrder;
    JoinedSame(m.chans, m.TxFailed(tx).chans, m.base, |m.chans|);
  }

  lemma JoinedLast(chans: seq<Chan>, from: nat, k: nat)
    requires from <= k < |chans|
    ensures Joined(chans, from, k + 1) == Joined(chans, from, k) + chans[k].builder.blocks
  {
  }

  lemma Regroup(front: seq<Block>, own: seq<Block>, a: seq<Block>, b: seq<Block>)
    ensures front + (own + a) + b == front + own + (a + b)
  {
  }

  lemma MovesSpell(m: Manager, m': Manager, k: nat, n: nat, ok: bool)
    requires Moves(m, m', k, n, ok) && m.base <= k
    ensures if ok || n == 0 then Spelled(m') == Spelled(m) else |Spelled(m')| > |Spelled(m)|
  {
    hide Joined;
    var bs := m.blocks;
    assert bs == bs[..n] + bs[n..];
    JoinedSame(m.chans, m'.chans, m.base, k);
    JoinedLast(m'.chans, m.base, k);
    var front := Joined(m.chans, m.base, k);
    if k < |m.chans| {
      JoinedLast(m.chans, m.base, k);
      var own := m.chans[k].builder.blocks;
      Regroup(front, own, bs[..n], bs[n..]);
    } else {
      Regroup(front, [], bs[..n], bs[n..]);
      assert front + [] == front;
    }
  }

  lemma RequestSpells(m: Manager, inp: TxInput)
    requires Consistent(m)
    ensures var m' := m.TxData(inp).0;
      if Upsets(m, Request(inp)) then |Spelled(m')| > |Spelled(m)| else Spelled(m') == Spelled(m)
  {
    hide Manager.TxData, Adding, Moves, Fills, Owned, TxsMatch, Joined;
    RequestMoves(m, inp);
    if Fills(m, inp) {
      MovesSpell(m, m.TxData(inp).0, Ensured(m).current.value, Adding(m, inp).1, Adding(m, inp).2);
    } else {
      JoinedSame(m.chans, m.TxData(inp).0.chans, m.base, |m.chans|);
    }
  }

  // The channels and the saved blocks spell out what was accepted.
  predicate InOrder(h: History) {
    Spelled(h.m) == h.accepted
  }

  /** A step keeps the order if and only if it does not upset it. */
  lemma InOrderStep(h: History, e: Event)
    requires Consistent(h.m) && InOrder(h)
    ensures InOrder(Step(h, e)) <==> !Upsets(h.m, e)
  {
    hide Consistent, Joined, Manager.TxData, Manager.TxConfirmed, Manager.TxFailed, Upsets;
    match e
    case NewBlock(block) => NewBlockSpells(h, block);
    case Request(inp) => RequestSpells(h.m, inp);
    case TxFails(tx) => TxFailsSpells(h.m, tx); assert !Upsets(h.m, e) by { QuietNeverUpsets(h.m, e); }
    case TxConfirms(tx, n) => TxConfirmsSpells(h, tx, n); UpsetIsKnown(h.m, tx, n);
    case Cleared => ClearedSpells(h); QuietNeverUpsets(h.m, e);
  }

  lemma UpsetIsKnown(m: Manager, tx: FrameId, n: Uint64)
    requires m.Ok()
    ensures Upsets(m, TxConfirms(tx, n)) ==> tx in m.txs
  {
  }

  lemma QuietNeverUpsets(m: Manager, e: Event)
    requires m.Ok() && !e.Request? && !e.TxConfirms?
    ensures !Upsets(m, e)
  {
  }

  lemma NewBlockSpells(h: History, block: Block)
    requires h.m.Ok() && InOrder(h)
    ensures InOrder(Step(h, NewBlock(block))) && !Upsets(h.m, NewBlock(block))
  {
  }

  lemma ClearedSpells(h: History)
    requires h.m.Ok()
    ensures InOrder(Step(h, Cleared))
  {
  }

  // ----- Whole runs -----

  // Each block names the one before it as its parent.
  predicate Chained(blocks: seq<Block>) {
    forall i :: 0 < i < |blocks| ==> blocks[i - 1].hash == 0 || blocks[i].parent == blocks[i - 1].hash
  }

  predicate TipIsLast(h: History) {
    h.m.tip == if h.accepted == [] then 0 else h.accepted[|h.accepted| - 1].hash
  }

  /** The accepted blocks form a chain in every run. */
  lemma {:induction false} AcceptedAreChained(cfg: Config, es: seq<Event>)
    ensures Chained(Run(cfg, es).accepted) && TipIsLast(Run(cfg, es))
    decreases |es|
  {
    hide Consistent;
    if es != [] {
      AcceptedAreChained(cfg, es[..|es| - 1]);
      ChainedStep(Run(cfg, es[..|es| - 1]), es[|es| - 1]);
    }
  }

  lemma ChainedStep(h: History, e: Event)
    requires Consistent(h.m) && Chained(h.accepted) && TipIsLast(h)
    ensures Chained(Step(h, e).accepted) && TipIsLast(Step(h, e))
  {
    hide Consistent, Manager.TxData, Moves, Manager.TxConfirmed, Manager.TxFailed, Adding, Fills, Ensured;
    if e.Request? {
      RequestMoves(h.m, e.inp);
      MovesKeepTip(h.m, h.m.TxData(e.inp).0, Ensured(h.m).current.value, Adding(h.m, e.inp).1, Adding(h.m, e.inp).2);
    } else {
      QuietTips(h.m, e);
    }
  }

  lemma MovesKeepTip(m: Manager, m': Manager, k: nat, n: nat, ok: bool)
    ensures Moves(m, m', k, n, ok) ==> m'.tip == m.tip
  {
  }

  lemma QuietTips(m: Manager, e: Event)
    requires m.Ok()
    ensures e.TxFails? ==> m.TxFailed(e.tx).tip == m.tip
    ensures e.TxConfirms? ==> m.TxConfirmed(e.tx, e.n).tip == m.tip
  {
  }

  /** In a run without upsets the channels in order of creation, followed by the saved blocks, are exactly the
      accepted chain. */
  lemma {:induction false} OrderInRun(cfg: Config, es: seq<Event>)
    requires forall i :: 0 <= i < |es| ==> !Upsets(Run(cfg, es[..i]).m, es[i])
    ensures InOrder(Run(cfg, es)) && Chained(Run(cfg, es).accepted)
    decreases |es|
  {
    hide Step, Consistent, Upsets, Spelled;
    AcceptedAreChained(cfg, es);
    if es == [] {
      assert InOrder(History(NewManager(cfg), [], {})) by { FreshInOrder(cfg); }
    } else {
      var front := es[..|es| - 1];
      forall i | 0 <= i < |front| ensures !Upsets(Run(cfg, front[..i]).m, front[i]) {
        assert front[..i] == es[..i];
      }
      OrderInRun(cfg, front);
      assert es[..|es| - 1] == front;
      InOrderStep(Run(cfg, front), es[|es| - 1]);
    }
  }

  lemma FreshInOrder(cfg: Config)
    ensures InOrder(History(NewManager(cfg), [], {}))
  {
  }
}
