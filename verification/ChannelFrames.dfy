/**
 What becomes of frames: over every run each frame made is queued, pending or
 confirmed, and a channel dropped as submitted has all of them confirmed within
 the channel timeout.
 */
module ChannelFrames {
  import opened Words
  import opened Wrappers
  import opened ChannelBuilding
  import opened Channels
  import opened ChannelManagement
  import opened ChannelRuns
  import opened ChannelBlocks

  // Frame numbers fit a uint16.
  ghost predicate Numbered(c: Chan) {
    && (forall f :: f in c.builder.frames ==> f.id.number <= MAX_FRAME)
    && (forall tx :: tx in c.pending ==> tx.number <= MAX_FRAME && c.pending[tx].id.number <= MAX_FRAME)
    && (forall tx :: tx in c.confirmed ==> tx.number <= MAX_FRAME)
  }

  // Frames are conserved as long as their numbers do not wrap around.
  ghost predicate FramesOk(c: Chan) {
    Numbered(c) && (c.builder.numFrames <= MAX_FRAME + 1 ==> c.Conserved())
  }

  lemma WrappedIsNotConserved(c: Chan)
    requires Numbered(c) && c.builder.numFrames > MAX_FRAME + 1
    ensures !c.Conserved()
  {
    assert FrameId(c.id, MAX_FRAME + 1) in Made(c.id, c.builder.numFrames);
  }

  lemma {:induction false} PullAllNumbered(c: Chan, pulls: seq<Pull>)
    requires Numbered(c)
    ensures Numbered(c.(builder := c.builder.PullAll(c.id, pulls).0))
    decreases pulls
  {
    if pulls != [] && pulls[0].Data? {
      PullAllNumbered(c.(builder := c.builder.AddFrame(c.id, pulls[0].data, false)), pulls[1..]);
    }
  }

  ghost predicate AllFramesOk(m: Manager) {
    forall k :: 0 <= k < |m.chans| ==> FramesOk(m.chans[k])
  }

  // ----- One step -----

  lemma NextTxFrames(m: Manager, k: Option<nat>)
    requires AllFramesOk(m) && (k.Some? ==> k.value < |m.chans|)
    ensures AllFramesOk(m.NextTx(k).0)
  {
    hide Chan.Conserved;
    if k.Some? && m.chans[k.value].builder.frames != [] {
      assert FramesOk(m.chans[k.value]);
      assert Numbered(m.chans[k.value].NextTx().0);
      if m.chans[k.value].builder.numFrames <= MAX_FRAME + 1 {
        NextTxConserves(m.chans[k.value]);
      }
    }
  }

  lemma TxFailsFrames(m: Manager, tx: FrameId)
    requires m.Ok() && AllFramesOk(m)
    ensures AllFramesOk(m.TxFailed(tx))
  {
    hide Chan.Conserved;
    if tx in m.txs && m.chans[m.txs[tx]].builder.numFrames <= MAX_FRAME + 1 {
      TxFailedConserves(m.chans[m.txs[tx]], tx);
    }
  }

  lemma TxConfirmsFrames(m: Manager, tx: FrameId, n: Uint64)
    requires m.Ok() && AllFramesOk(m)
    ensures AllFramesOk(m.TxConfirmed(tx, n))
  {
    hide Chan.Conserved, Chan.TimedOut, Chan.FullySubmitted, Chan.Confirm, Numbered;
    if tx in m.txs {
      var c := m.chans[m.txs[tx]];
      assert FramesOk(c);
      ConfirmCounts(c, m.cfg, tx, n);
      if tx in c.pending && c.builder.numFrames <= MAX_FRAME + 1 {
        ConfirmConserves(c, m.cfg, tx, n);
      }
    }
  }

  lemma ConfirmCounts(c: Chan, cfg: Config, tx: FrameId, n: Uint64)
    ensures var b := c.Confirm(cfg, tx, n).builder;
      b.numFrames == c.builder.numFrames && b.fullErr == c.builder.fullErr && b.finished == c.builder.finished
    ensures Numbered(c) && tx in c.pending ==> Numbered(c.Confirm(cfg, tx, n))
  {
  }

  lemma OutputConserves(c: Chan, enc: Encoder)
    requires FramesOk(c)
    ensures FramesOk(c.(builder := c.builder.OutputFrames(c.id, enc).0))
  {
    hide Chan.Conserved, Builder.PullAll, Numbered;
    PullAllNumbered(c, enc.ready);
    PullAllNumbered(c, enc.rest);
    var c' := c.(builder := c.builder.OutputFrames(c.id, enc).0);
    PullAllGrows(c.id, c.builder, enc.ready);
    PullAllGrows(c.id, c.builder, enc.rest);
    if c'.builder.numFrames <= MAX_FRAME + 1 {
      if !c.builder.IsFull() {
        PullAllConserves(c, enc.ready);
      } else if !enc.closeFails {
        PullAllConserves(c, enc.rest);
      }
    }
  }

  lemma FilledFrames(m: Manager, inp: TxInput)
    requires m.HasSpace() && FramesOk(m.chans[m.current.value])
    ensures FramesOk(m.chans[m.current.value].(builder := Filled(m, inp).0))
  {
    hide Chan.Conserved, AddAll, Builder.OutputFrames, Builder.RegisterL1Block;
    var c := m.chans[m.current.value];
    AddAllKeeps(m.cfg, c.builder, m.blocks, inp.adds, 0);
    var b := AddAll(m.cfg, c.builder, m.blocks, inp.adds, 0).0;
    RegisterKeeps(m.cfg, b, inp.l1Head);
    SameFramesOk(c, b);
    SameFramesOk(c, b.RegisterL1Block(m.cfg, inp.l1Head));
    OutputConserves(c.(builder := b.RegisterL1Block(m.cfg, inp.l1Head)), inp.enc);
  }

  lemma SameFramesOk(c: Chan, b: Builder)
    requires FramesOk(c) && b.frames == c.builder.frames && b.numFrames == c.builder.numFrames
    ensures FramesOk(c.(builder := b))
  {
    hide Chan.Conserved;
    if b.numFrames <= MAX_FRAME + 1 {
      ConservedDependsOnFrames(c, b);
    }
  }

  lemma RequestFrames(m: Manager, inp: TxInput)
    requires Consistent(m) && AllFramesOk(m)
    ensures AllFramesOk(m.TxData(inp).0)
  {
    hide Manager.Fill, Manager.NextTx, Manager.FirstWithFrame, FramesOk, Consistent, Filled, AddAll;
    if m.FirstWithFrame(0).Some? {
      NextTxFrames(m, m.FirstWithFrame(0));
    } else if Fills(m, inp) {
      FillFrames(m, inp);
      EnsureConsistent(m);
      FillConsistent(Ensured(m), inp);
      var m1 := Ensured(m).Fill(inp).0;
      NextTxFrames(m1, m1.current);
    }
  }

  lemma FillFrames(m: Manager, inp: TxInput)
    requires Consistent(m) && AllFramesOk(m)
    ensures AllFramesOk(Ensured(m).Fill(inp).0)
  {
    hide Manager.Fill, FramesOk, Consistent, Filled, AddAll;
    var r := Ensured(m);
    assert FramesOk(NewChan(|m.chans|)) by { NewFramesOk(|m.chans|); }
    assert AllFramesOk(r);
    FillChanges(r, inp);
    FilledFrames(r, inp);
  }

  lemma NewFramesOk(k: nat)
    ensures FramesOk(NewChan(k))
  {
    NewIsConserved(k);
  }

  /** In every reachable state, every frame a channel has made is in exactly one place (queued once, pending or
      confirmed) if and only if its frame numbers have not wrapped around. */
  lemma ConservedExactly(cfg: Config, es: seq<Event>, k: nat)
    requires k < |Run(cfg, es).m.chans|
    ensures var c := Run(cfg, es).m.chans[k]; c.Conserved() <==> c.builder.numFrames <= MAX_FRAME + 1
  {
    hide Run, Chan.Conserved, Numbered;
    FramesConserved(cfg, es);
    var c := Run(cfg, es).m.chans[k];
    assert FramesOk(c);
    if c.builder.numFrames > MAX_FRAME + 1 {
      WrappedIsNotConserved(c);
    }
  }

  lemma {:induction false} FramesConserved(cfg: Config, es: seq<Event>)
    ensures AllFramesOk(Run(cfg, es).m)
    decreases |es|
  {
    hide AllFramesOk, Consistent, Manager.TxData, Manager.TxConfirmed, Manager.TxFailed;
    if es == [] {
      assert AllFramesOk(NewManager(cfg)) by { NoFramesYet(cfg); }
    } else {
      var h, e := Run(cfg, es[..|es| - 1]), es[|es| - 1];
      FramesConserved(cfg, es[..|es| - 1]);
      match e
      case NewBlock(block) => QuietFrames(h, e);
      case Request(inp) => RequestFrames(h.m, inp);
      case TxFails(tx) => TxFailsFrames(h.m, tx);
      case TxConfirms(tx, n) => TxConfirmsFrames(h.m, tx, n);
      case Cleared => QuietFrames(h, e);
    }
  }

  lemma NoFramesYet(cfg: Config)
    ensures AllFramesOk(NewManager(cfg))
  {
  }

  lemma QuietFrames(h: History, e: Event)
    requires h.m.Ok() && AllFramesOk(h.m) && (e.NewBlock? || e.Cleared?)
    ensures AllFramesOk(Step(h, e).m)
  {
    hide FramesOk;
  }

  // ----- Submitted channels -----

  // A channel that was dropped as submitted.
  ghost predicate Submitted(c: Chan, cfg: Config) {
    c.FullySubmitted() && !c.TimedOut(cfg)
  }

  ghost predicate AllSubmitted(h: History) {
    forall k :: k in h.submitted ==> k < |h.m.chans| && Submitted(h.m.chans[k], h.m.cfg)
  }

  // Nothing happens to a submitted channel any more.
  lemma SubmittedStays(h: History, e: Event)
    requires Consistent(h.m) && SubmittedApart(h) && !e.Cleared?
    ensures var h' := Step(h, e);
      && h'.m.cfg == h.m.cfg && |h.m.chans| <= |h'.m.chans|
      && forall k :: k in h.submitted ==> k < |h.m.chans| && h'.m.chans[k] == h.m.chans[k]
  {
    hide Manager.TxData, Chan.TxConfirmed, Chan.TxFailed, QueueInOrder, Owned;
    match e
    case NewBlock(block) =>
    case Request(inp) => RequestLocal(h.m, inp); RequestKeepsConfig(h.m, inp);
    case TxFails(tx) =>
    case TxConfirms(tx, n) =>
  }

  lemma RequestKeepsConfig(m: Manager, inp: TxInput)
    requires m.Ok()
    ensures m.TxData(inp).0.cfg == m.cfg
  {
    hide AddAll, Builder.OutputFrames, Builder.RegisterL1Block, Manager.FirstWithFrame;
  }

  lemma SubmittedStep(h: History, e: Event)
    requires Consistent(h.m) && SubmittedApart(h) && AllSubmitted(h)
    ensures AllSubmitted(Step(h, e))
  {
    hide Submitted, Consistent, Manager.TxData, SubmittedApart, Manager.TxFailed;
    if !e.Cleared? {
      SubmittedStays(h, e);
      if e.TxConfirms? && Submits(h.m, e.tx, e.n) {
        SubmitsIsSubmitted(h.m, e.tx, e.n);
      }
    }
  }

  lemma SubmitsIsSubmitted(m: Manager, tx: FrameId, n: Uint64)
    requires m.Ok() && Submits(m, tx, n)
    ensures Submitted(m.TxConfirmed(tx, n).chans[m.txs[tx]], m.cfg)
  {
    hide Chan.TimedOut, Builder.FramePublished;
  }

  lemma {:induction false} SubmittedRun(cfg: Config, es: seq<Event>)
    ensures AllSubmitted(Run(cfg, es))
    decreases |es|
  {
    hide Step, Consistent, SubmittedApart, Submitted;
    if es != [] {
      SubmittedRun(cfg, es[..|es| - 1]);
      RunApart(cfg, es[..|es| - 1]);
      SubmittedStep(Run(cfg, es[..|es| - 1]), es[|es| - 1]);
    }
  }

  /** A channel the manager has dropped as submitted has every frame it ever made confirmed, in L1 blocks that
      span less than the channel timeout. */
  lemma SubmittedIsConfirmed(cfg: Config, es: seq<Event>, k: nat)
    requires k in Run(cfg, es).submitted
    ensures var c := Run(cfg, es).m.chans;
      k < |c| && (c[k].builder.numFrames <= MAX_FRAME + 1 ==> c[k].confirmed.Keys == Made(c[k].id, c[k].builder.numFrames))
    ensures forall x, y ::
      x in Run(cfg, es).m.chans[k].confirmed && y in Run(cfg, es).m.chans[k].confirmed ==>
        Run(cfg, es).m.chans[k].confirmed[y] - Run(cfg, es).m.chans[k].confirmed[x] < Run(cfg, es).m.cfg.channelTimeout
  {
    hide Run, Chan.Conserved, Made;
    SubmittedRun(cfg, es);
    FramesConserved(cfg, es);
    var c := Run(cfg, es).m.chans[k];
    if c.builder.numFrames <= MAX_FRAME + 1 {
      assert FramesOk(c);
      NothingLeft(c);
    }
  }

  // ----- The last frame -----

  // A full channel has taken its last frame from the encoder, unless frame numbers have run out.
  predicate Finished(b: Builder) {
    b.IsFull() && b.numFrames <= MAX_FRAME ==> b.finished
  }

  lemma {:induction false} OpenStaysOpen(id: nat, b: Builder, pulls: seq<Pull>)
    requires !b.IsFull() && b.PullAll(id, pulls).0.numFrames <= MAX_FRAME
    ensures !b.PullAll(id, pulls).0.IsFull()
    decreases pulls
  {
    if pulls != [] && pulls[0].Data? {
      PullAllGrows(id, b.AddFrame(id, pulls[0].data, false), pulls[1..]);
      OpenStaysOpen(id, b.AddFrame(id, pulls[0].data, false), pulls[1..]);
    }
  }

  lemma {:induction false} DrainFinishes(id: nat, b: Builder, pulls: seq<Pull>)
    requires Drains(pulls) && b.PullAll(id, pulls).1
    ensures b.PullAll(id, pulls).0.finished
    decreases pulls
  {
    if pulls[0].Data? {
      DrainFinishes(id, b.AddFrame(id, pulls[0].data, false), pulls[1..]);
    }
  }

  lemma OutputFinishes(id: nat, b: Builder, enc: Encoder)
    requires b.OutputFrames(id, enc).1
    ensures Finished(b.OutputFrames(id, enc).0)
  {
    hide Builder.PullAll;
    if b.IsFull() {
      DrainFinishes(id, b, enc.rest);
    } else if b.PullAll(id, enc.ready).0.numFrames <= MAX_FRAME {
      OpenStaysOpen(id, b, enc.ready);
    }
  }

  // The frames of a request cannot be taken from the encoder.
  predicate OutputFails(m: Manager, inp: TxInput)
    requires m.Ok()
  {
    Fills(m, inp) && Adding(m, inp).2 && !Filled(Ensured(m), inp).1
  }

  predicate AllFinished(m: Manager) {
    forall k :: 0 <= k < |m.chans| ==> Finished(m.chans[k].builder)
  }

  lemma NextTxFinished(m: Manager, k: Option<nat>)
    requires AllFinished(m) && (k.Some? ==> k.value < |m.chans|)
    ensures AllFinished(m.NextTx(k).0)
  {
  }

  lemma RequestFinished(m: Manager, inp: TxInput)
    requires Consistent(m) && AllFinished(m) && !OutputFails(m, inp)
    ensures AllFinished(m.TxData(inp).0)
  {
    hide Manager.Fill, Manager.NextTx, Manager.FirstWithFrame, Finished, Consistent, AddAll, Builder.OutputFrames,
         Builder.RegisterL1Block;
    if m.FirstWithFrame(0).Some? {
      NextTxFinished(m, m.FirstWithFrame(0));
    } else if Fills(m, inp) {
      var r := Ensured(m);
      var c := r.chans[r.current.value];
      assert Finished(EMPTY) by { EmptyFinished(); }
      assert AllFinished(r);
      EnsureConsistent(m);
      FillChanges(r, inp);
      AddAllKeeps(r.cfg, c.builder, r.blocks, inp.adds, 0);
      FillConsistent(r, inp);
      var b := AddAll(r.cfg, c.builder, r.blocks, inp.adds, 0).0;
      if Adding(m, inp).2 {
        OutputFinishes(c.id, b.RegisterL1Block(r.cfg, inp.l1Head), inp.enc);
      } else {
        OpenIsFinished(b);
      }
      assert Finished(Filled(r, inp).0);
      var m1 := r.Fill(inp).0;
      assert AllFinished(m1);
      NextTxFinished(m1, m1.current);
    }
  }

  lemma EmptyFinished()
    ensures Finished(EMPTY)
  {
  }

  lemma OpenIsFinished(b: Builder)
    requires !b.IsFull()
    ensures Finished(b)
  {
  }

  lemma ReplyFinished(h: History, e: Event)
    requires h.m.Ok() && AllFinished(h.m) && !e.Request?
    ensures AllFinished(Step(h, e).m)
  {
    hide Chan.TimedOut, Chan.FullySubmitted, ChannelDeadline;
  }

  /** In a run in which the encoder never fails, a channel dropped as submitted has its last frame, too, among the
      confirmed ones (below 65536 frames). */
  lemma {:induction false} SubmittedIsFinished(cfg: Config, es: seq<Event>)
    requires forall i :: 0 <= i < |es| && es[i].Request? ==> !OutputFails(Run(cfg, es[..i]).m, es[i].inp)
    ensures AllFinished(Run(cfg, es).m)
    ensures forall k :: k in Run(cfg, es).submitted ==>
              k < |Run(cfg, es).m.chans|
              && (Run(cfg, es).m.chans[k].builder.numFrames <= MAX_FRAME ==> Run(cfg, es).m.chans[k].builder.finished)
    decreases |es|
  {
    hide Consistent, Finished, OutputFails, Manager.TxData, Manager.TxConfirmed, Manager.TxFailed, Submits;
    if es != [] {
      var front, e := es[..|es| - 1], es[|es| - 1];
      forall i | 0 <= i < |front| && front[i].Request? ensures !OutputFails(Run(cfg, front[..i]).m, front[i].inp) {
        assert front[..i] == es[..i];
      }
      SubmittedIsFinished(cfg, front);
      assert es[..|es| - 1] == front;
      var h := Run(cfg, front);
      if e.Request? {
        RequestFinished(h.m, e.inp);
      } else {
        ReplyFinished(h, e);
      }
    }
    SubmittedRun(cfg, es);
    forall k | k in Run(cfg, es).submitted && Run(cfg, es).m.chans[k].builder.numFrames <= MAX_FRAME
      ensures Run(cfg, es).m.chans[k].builder.finished
    {
      FullIsFinished(Run(cfg, es).m.chans[k].builder);
    }
  }

  lemma FullIsFinished(b: Builder)
    requires Finished(b) && b.IsFull() && b.numFrames <= MAX_FRAME
    ensures b.finished
  {
  }
}
