/**
 One channel of the batcher: a builder and the transactions that carry its
 frames, pending or confirmed.
 */
module Channels {
  import opened Words
  import opened Wrappers
  import opened ChannelBuilding

  /** A channel as a value.  A transaction carries one frame and is named after it. */
  datatype Chan = Chan(
    id: nat, builder: Builder, pending: map<FrameId, Frame>, confirmed: map<FrameId, Uint64>)
  {
    // The inclusion blocks span the channel timeout or more.
    predicate TimedOut(cfg: Config) {
      exists x, y :: x in confirmed && y in confirmed && confirmed[y] - confirmed[x] >= cfg.channelTimeout
    }

    predicate FullySubmitted() {
      builder.IsFull() && |pending| + |builder.frames| == 0
    }

    function NextTx(): (Chan, Frame)
      requires builder.frames != []
    {
      var f := builder.frames[0];
      (this.(builder := builder.(frames := builder.frames[1..]), pending := pending[f.id := f]), f)
    }

    function TxFailed(tx: FrameId): Chan {
      if tx in pending then this.(builder := builder.Push(pending[tx]), pending := pending - {tx}) else this
    }

    function Confirm(cfg: Config, tx: FrameId, n: Uint64): Chan {
      this.(pending := pending - {tx}, confirmed := confirmed[tx := n], builder := builder.FramePublished(cfg, n))
    }

    // The new channel, whether the channel is done, and the blocks to be put into another one.
    function TxConfirmed(cfg: Config, tx: FrameId, n: Uint64): (Chan, bool, seq<Block>) {
      if tx !in pending then (this, false, [])
      else
        var c := Confirm(cfg, tx, n);
        if c.TimedOut(cfg) then (c, true, c.builder.blocks)
        else (c, c.FullySubmitted(), [])
    }

    // ----- Conservation of frames -----

    /** Every frame made is in exactly one of three places: queued once, pending or confirmed. */
    ghost predicate Conserved() {
      && Split(Names(builder.frames), pending.Keys, confirmed.Keys, Made(id, builder.numFrames))
      && Distinct(builder.frames)
      && |builder.frames| + |pending| + |confirmed| == builder.numFrames
      && (forall tx :: tx in pending ==> pending[tx].id == tx)
    }
  }

  // The names of the first n frames of a channel.
  ghost function Made(id: nat, n: nat): set<FrameId> {
    set k | 0 <= k < n :: FrameId(id, k)
  }

  ghost function Names(frames: seq<Frame>): set<FrameId> {
    set f | f in frames :: f.id
  }

  ghost predicate Distinct(frames: seq<Frame>) {
    forall i, j :: 0 <= i < j < |frames| ==> frames[i].id != frames[j].id
  }

  ghost predicate Split(q: set<FrameId>, p: set<FrameId>, c: set<FrameId>, all: set<FrameId>) {
    forall x :: (x in all <==> x in q || x in p || x in c) && (x in q ==> x !in p && x !in c) && !(x in p && x in c)
  }

  lemma SplitMoves(q: set<FrameId>, p: set<FrameId>, c: set<FrameId>, all: set<FrameId>, x: FrameId)
    requires Split(q, p, c, all)
    ensures x in q ==> x !in p && x !in c && Split(q - {x}, p + {x}, c, all)
    ensures x in p ==> x !in q && x !in c && Split(q + {x}, p - {x}, c, all) && Split(q, p - {x}, c + {x}, all)
    ensures x !in all ==> x !in q && Split(q + {x}, p, c, all + {x})
  {
  }

  lemma NamesHead(frames: seq<Frame>)
    requires frames != [] && Distinct(frames)
    ensures frames[0].id in Names(frames) && Names(frames[1..]) == Names(frames) - {frames[0].id} && Distinct(frames[1..])
  {
    var f, rest := frames[0], frames[1..];
    forall x | x in Names(frames) ensures x == f.id || x in Names(rest) {
      var i :| 0 <= i < |frames| && frames[i].id == x;
      assert i > 0 ==> rest[i - 1].id == x && rest[i - 1] in rest;
    }
    forall x | x in Names(rest) ensures x in Names(frames) && x != f.id {
      var i :| 0 <= i < |rest| && rest[i].id == x;
      assert frames[i + 1].id == x;
    }
  }

  lemma NamesLast(frames: seq<Frame>, f: Frame)
    requires Distinct(frames) && f.id !in Names(frames)
    ensures Names(frames + [f]) == Names(frames) + {f.id} && Distinct(frames + [f])
  {
    var all := frames + [f];
    assert f in all && forall g :: g in frames ==> g in all;
    forall i | 0 <= i < |frames| ensures frames[i].id != f.id {
      assert frames[i].id in Names(frames);
    }
  }

  lemma MadeNext(id: nat, n: nat)
    ensures Made(id, n + 1) == Made(id, n) + {FrameId(id, n)} && FrameId(id, n) !in Made(id, n)
  {
  }

  function NewChan(id: nat): Chan {
    Chan(id, EMPTY, map[], map[])
  }

  lemma NewIsConserved(id: nat)
    ensures NewChan(id).Conserved()
  {
  }

  lemma NextTxConserves(c: Chan)
    requires c.Conserved() && c.builder.frames != []
    ensures c.NextTx().0.Conserved()
  {
    hide Names, Distinct, Made, Split;
    var f, fs := c.builder.frames[0], c.builder.frames;
    NamesHead(fs);
    SplitMoves(Names(fs), c.pending.Keys, c.confirmed.Keys, Made(c.id, c.builder.numFrames), f.id);
    Entered(c.pending, f.id, f);
  }

  lemma Removed<V>(m: map<FrameId, V>, x: FrameId)
    requires x in m
    ensures (m - {x}).Keys == m.Keys - {x} && |m - {x}| == |m| - 1
  {
    assert |(m - {x}).Keys| == |m.Keys - {x}|;
  }

  lemma Entered<V>(m: map<FrameId, V>, x: FrameId, v: V)
    requires x !in m
    ensures m[x := v].Keys == m.Keys + {x} && |m[x := v]| == |m| + 1
  {
    assert |m[x := v].Keys| == |m.Keys + {x}|;
  }

  lemma TxFailedConserves(c: Chan, tx: FrameId)
    requires c.Conserved()
    ensures c.TxFailed(tx).Conserved()
  {
    hide Names, Distinct, Made, Split;
    if tx in c.pending {
      SplitMoves(Names(c.builder.frames), c.pending.Keys, c.confirmed.Keys, Made(c.id, c.builder.numFrames), tx);
      NamesLast(c.builder.frames, c.pending[tx]);
      Removed(c.pending, tx);
    }
  }

  lemma ConfirmConserves(c: Chan, cfg: Config, tx: FrameId, n: Uint64)
    requires c.Conserved() && tx in c.pending
    ensures c.Confirm(cfg, tx, n).Conserved()
  {
    hide Names, Distinct, Made, Split;
    SplitMoves(Names(c.builder.frames), c.pending.Keys, c.confirmed.Keys, Made(c.id, c.builder.numFrames), tx);
    Removed(c.pending, tx);
    Entered(c.confirmed, tx, n);
  }

  lemma AddFrameConserves(c: Chan, data: seq<Byte>, last: bool)
    requires c.Conserved() && c.builder.numFrames <= MAX_FRAME
    ensures c.(builder := c.builder.AddFrame(c.id, data, last)).Conserved()
  {
    hide Names, Distinct, Made, Split;
    var k := c.builder.numFrames;
    MadeNext(c.id, k);
    SplitMoves(Names(c.builder.frames), c.pending.Keys, c.confirmed.Keys, Made(c.id, k), FrameId(c.id, k));
    NamesLast(c.builder.frames, Frame(FrameId(c.id, k), data));
  }

  lemma {:induction false} PullAllGrows(id: nat, b: Builder, pulls: seq<Pull>)
    ensures b.numFrames <= b.PullAll(id, pulls).0.numFrames
    decreases pulls
  {
    if pulls != [] && pulls[0].Data? {
      PullAllGrows(id, b.AddFrame(id, pulls[0].data, false), pulls[1..]);
    }
  }

  lemma {:induction false} PullAllConserves(c: Chan, pulls: seq<Pull>)
    requires c.Conserved() && c.builder.PullAll(c.id, pulls).0.numFrames <= MAX_FRAME + 1
    ensures c.(builder := c.builder.PullAll(c.id, pulls).0).Conserved()
    decreases pulls
  {
    if pulls != [] && !pulls[0].PullFails? {
      var d := c.(builder := c.builder.AddFrame(c.id, pulls[0].data, pulls[0].LastData?));
      if pulls[0].Data? {
        PullAllGrows(c.id, d.builder, pulls[1..]);
      }
      AddFrameConserves(c, pulls[0].data, pulls[0].LastData?);
      if pulls[0].Data? {
        PullAllConserves(d, pulls[1..]);
      }
    }
  }

  // Only the frames of the builder and their count matter.
  lemma ConservedDependsOnFrames(c: Chan, b: Builder)
    requires c.Conserved() && b.frames == c.builder.frames && b.numFrames == c.builder.numFrames
    ensures c.(builder := b).Conserved()
  {
  }

  lemma NothingLeft(c: Chan)
    requires c.Conserved()
    ensures |c.pending| + |c.builder.frames| == 0 <==> c.confirmed.Keys == Made(c.id, c.builder.numFrames)
  {
    hide Names, Distinct, Made, Split;
    NoNames(c.builder.frames);
    OnlyConfirmed(Names(c.builder.frames), c.pending.Keys, c.confirmed.Keys, Made(c.id, c.builder.numFrames));
    assert c.pending.Keys == {} <==> |c.pending| == 0;
  }

  lemma NoNames(frames: seq<Frame>)
    ensures Names(frames) == {} <==> frames == []
  {
    if frames != [] {
      assert frames[0].id in Names(frames);
    }
  }

  lemma OnlyConfirmed(q: set<FrameId>, p: set<FrameId>, c: set<FrameId>, all: set<FrameId>)
    requires Split(q, p, c, all)
    ensures c == all <==> q == {} && p == {}
  {
    if c == all {
      assert forall x :: x in q ==> x in all;
      assert forall x :: x in p ==> x in all;
    }
  }

  /** A confirmed transaction ends the channel exactly when the inclusion blocks now span the channel timeout,
      or when the channel is full and every frame it ever made is confirmed.  Only the first gives blocks back. */
  lemma DoneExactly(c: Chan, cfg: Config, tx: FrameId, n: Uint64)
    requires c.Conserved() && tx in c.pending
    ensures var (c', done, blocks) := c.TxConfirmed(cfg, tx, n);
      && (done <==>
          c'.TimedOut(cfg) || (c'.builder.IsFull() && c'.confirmed.Keys == Made(c'.id, c'.builder.numFrames)))
      && blocks == (if c'.TimedOut(cfg) then c.builder.blocks else [])
      && c'.confirmed.Keys == c.confirmed.Keys + {tx}
  {
    hide Chan.Conserved, Chan.TimedOut, Made;
    ConfirmConserves(c, cfg, tx, n);
    NothingLeft(c.Confirm(cfg, tx, n));
  }

  // Once timed out, a channel stays timed out.
  lemma TimeoutIsFinal(c: Chan, cfg: Config, tx: FrameId, n: Uint64)
    requires c.TimedOut(cfg) && tx in c.pending && tx !in c.confirmed
    ensures c.Confirm(cfg, tx, n).TimedOut(cfg)
  {
    var x, y :| x in c.confirmed && y in c.confirmed && c.confirmed[y] - c.confirmed[x] >= cfg.channelTimeout;
    var c' := c.Confirm(cfg, tx, n);
    assert x in c'.confirmed && y in c'.confirmed && c'.confirmed[y] - c'.confirmed[x] >= cfg.channelTimeout;
  }

  predicate OwnFrames(id: nat, frames: seq<Frame>) {
    forall f :: f in frames ==> f.id.channel == id
  }

  lemma {:induction false} PullAllOwnFrames(id: nat, b: Builder, pulls: seq<Pull>)
    requires OwnFrames(id, b.frames)
    ensures OwnFrames(id, b.PullAll(id, pulls).0.frames)
    decreases pulls
  {
    if pulls != [] && pulls[0].Data? {
      PullAllOwnFrames(id, b.AddFrame(id, pulls[0].data, false), pulls[1..]);
    }
  }

  // ----- The channel itself -----

  class Channel {
    const channelBuilder: ChannelBuilder
    var pendingTransactions: map<FrameId, Frame>
    var confirmedTransactions: map<FrameId, Uint64>

    ghost function Value(): Chan
      reads this, channelBuilder
    {
      Chan(channelBuilder.id, channelBuilder.Value(), pendingTransactions, confirmedTransactions)
    }

    // All frames it holds are its own.
    predicate Valid()
      reads this, channelBuilder
    {
      && (forall tx :: tx in pendingTransactions ==> pendingTransactions[tx].id.channel == channelBuilder.id)
      && OwnFrames(channelBuilder.id, channelBuilder.frames)
    }

    constructor (cfg: Config, id: nat)
      ensures Valid() && fresh(channelBuilder) && Value() == NewChan(id)
      ensures channelBuilder.id == id && channelBuilder.cfg == cfg
    {
      channelBuilder := new ChannelBuilder(cfg, id);
      pendingTransactions, confirmedTransactions := map[], map[];
    }

    method TxFailed(tx: FrameId)
      requires Valid()
      modifies this, channelBuilder
      ensures Valid() && Value() == old(Value()).TxFailed(tx)
    {
      if tx in pendingTransactions {
        channelBuilder.PushFrame(pendingTransactions[tx]);
        pendingTransactions := pendingTransactions - {tx};
      }
    }

    method TxConfirmed(tx: FrameId, n: Uint64) returns (done: bool, blocks: seq<Block>)
      requires Valid()
      modifies this, channelBuilder
      ensures Valid() && (Value(), done, blocks) == old(Value()).TxConfirmed(channelBuilder.cfg, tx, n)
    {
      if tx !in pendingTransactions {
        return false, [];
      }
      pendingTransactions := pendingTransactions - {tx};
      confirmedTransactions := confirmedTransactions[tx := n];
      channelBuilder.FramePublished(n);
      assert Value() == old(Value()).Confirm(channelBuilder.cfg, tx, n);
      var timedOut := IsTimedOut();
      if timedOut {
        return true, channelBuilder.blocks;
      }
      done := IsFullySubmitted();
      blocks := [];
    }

    method IsTimedOut() returns (timedOut: bool)
      ensures timedOut == Value().TimedOut(channelBuilder.cfg)
    {
      var confirmed := confirmedTransactions;
      if |confirmed| == 0 {
        return false;
      }
      var min, max := UINT64_RANGE - 1, 0;
      var rest := confirmed.Keys;
      while rest != {}
        invariant rest <= confirmed.Keys
        invariant forall x :: x in confirmed.Keys - rest ==> min <= confirmed[x] <= max
        invariant if rest == confirmed.Keys then min == UINT64_RANGE - 1 && max == 0
                  else exists x, y :: x in confirmed && y in confirmed && confirmed[x] == min && confirmed[y] == max
      {
        var tx :| tx in rest;
        var n := confirmed[tx];
        if n < min {
          min := n;
        }
        if n > max {
          max := n;
        }
        rest := rest - {tx};
      }
      timedOut := max - min >= channelBuilder.cfg.channelTimeout;
    }

    predicate IsFullySubmitted()
      reads this, channelBuilder
      ensures IsFullySubmitted() == Value().FullySubmitted()
    {
      channelBuilder.IsFull() && |pendingTransactions| + |channelBuilder.frames| == 0
    }

    predicate IsFull()
      reads this, channelBuilder
      ensures IsFull() == Value().builder.IsFull()
    {
      channelBuilder.IsFull()
    }

    predicate HasFrame()
      reads this, channelBuilder
      ensures HasFrame() == (Value().builder.frames != [])
    {
      channelBuilder.HasFrame()
    }

    method RegisterL1Block(n: Uint64)
      requires Valid()
      modifies channelBuilder
      ensures Valid()
      ensures Value() == old(Value()).(builder := old(Value()).builder.RegisterL1Block(channelBuilder.cfg, n))
    {
      channelBuilder.RegisterL1Block(n);
      assert channelBuilder.frames == channelBuilder.Value().frames;
    }

    method AddBlock(block: Block, outcome: AddOutcome) returns (res: AddResult)
      requires Valid()
      modifies channelBuilder
      ensures Valid()
      ensures var (b, r) := old(Value()).builder.AddBlock(channelBuilder.cfg, block, outcome);
        Value() == old(Value()).(builder := b) && res == r
    {
      res := channelBuilder.AddBlock(block, outcome);
      assert channelBuilder.frames == channelBuilder.Value().frames;
    }

    method OutputFrames(enc: Encoder) returns (ok: bool)
      requires Valid()
      modifies channelBuilder
      ensures Valid()
      ensures var (b, r) := old(Value()).builder.OutputFrames(channelBuilder.id, enc);
        Value() == old(Value()).(builder := b) && ok == r
    {
      PullAllOwnFrames(channelBuilder.id, channelBuilder.Value(), enc.ready);
      PullAllOwnFrames(channelBuilder.id, channelBuilder.Value(), enc.rest);
      ok := channelBuilder.OutputFrames(enc);
      assert channelBuilder.frames == channelBuilder.Value().frames;
    }

    method NextTxData() returns (tx: Frame)
      requires Valid() && channelBuilder.HasFrame()
      modifies this, channelBuilder
      ensures Valid() && (Value(), tx) == old(Value()).NextTx()
    {
      tx := channelBuilder.NextFrame();
      pendingTransactions := pendingTransactions[tx.id := tx];
    }
  }
}
