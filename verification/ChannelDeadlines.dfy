/**
 Over every run of a channel builder: its timeout is the earliest deadline
 registered so far, and a channel that is still open is ahead of all of them.
 */
module ChannelDeadlines {
  import opened Words
  import opened Wrappers
  import opened ChannelBuilding

  datatype Event =
    | Add(block: Block, outcome: AddOutcome)
    | L1Block(n: Uint64)
    | Published(n: Uint64)
    | Output(enc: Encoder)
    | Next
    | PushBack(frame: Frame)

  function After(cfg: Config, id: nat, b: Builder, e: Event): Builder {
    match e
    case Add(block, outcome) => b.AddBlock(cfg, block, outcome).0
    case L1Block(n) => b.RegisterL1Block(cfg, n)
    case Published(n) => b.FramePublished(cfg, n)
    case Output(enc) => b.OutputFrames(id, enc).0
    case Next => if b.frames == [] then b else b.(frames := b.frames[1..])
    case PushBack(frame) => b.Push(frame)
  }

  // A builder after a run that starts with a fresh one.
  function Run(cfg: Config, id: nat, es: seq<Event>): Builder {
    if es == [] then EMPTY else After(cfg, id, Run(cfg, id, es[..|es| - 1]), es[|es| - 1])
  }

  datatype Deadline = Deadline(at: Uint64, reason: Reason)

  // The block gets into the channel.
  predicate Accepts(b: Builder, e: Event) {
    e.Add? && e.outcome.Added? && !b.IsFull()
  }

  // What one event adds to the deadlines of the channel.
  function Registered(cfg: Config, b: Builder, e: Event): seq<Deadline> {
    if Accepts(b, e) then [Deadline(SeqWindowDeadline(cfg, e.outcome.epoch), SeqWindowClose)]
    else if e.L1Block? && cfg.maxChannelDuration != 0 then [Deadline(DurationDeadline(cfg, e.n), MaxDurationReached)]
    else if e.Published? then [Deadline(ChannelDeadline(cfg, e.n), ChannelTimeoutClose)]
    else []
  }

  // All deadlines registered in a run.
  function Deadlines(cfg: Config, id: nat, es: seq<Event>): seq<Deadline> {
    if es == [] then []
    else
      var front, e := es[..|es| - 1], es[|es| - 1];
      Deadlines(cfg, id, front) + Registered(cfg, Run(cfg, id, front), e)
  }

  function Earliest(ds: seq<Deadline>): nat
    requires ds != []
  {
    var last := ds[|ds| - 1].at;
    if |ds| == 1 then last
    else var rest := Earliest(ds[..|ds| - 1]); if last < rest then last else rest
  }

  lemma {:induction false} EarliestIsLeast(ds: seq<Deadline>)
    requires ds != []
    ensures forall i :: 0 <= i < |ds| ==> Earliest(ds) <= ds[i].at
    ensures exists i :: 0 <= i < |ds| && ds[i].at == Earliest(ds)
  {
    assert ds[|ds| - 1].at == Earliest(ds) || |ds| > 1;
    if |ds| > 1 {
      var front := ds[..|ds| - 1];
      EarliestIsLeast(front);
      assert Earliest(ds) == ds[|ds| - 1].at || Earliest(ds) == Earliest(front);
      var i :| 0 <= i < |front| && front[i].at == Earliest(front);
      assert ds[i] == front[i];
      assert forall j :: 0 <= j < |front| ==> front[j] == ds[j];
    }
  }

  predicate NoZero(ds: seq<Deadline>) {
    forall i :: 0 <= i < |ds| ==> ds[i].at != 0
  }

  // The builder's deadline when these were registered one after the other.
  predicate Settled(b: Builder, ds: seq<Deadline>) {
    if ds == [] then b.timeout == 0
    else
      && (b.timeout == Earliest(ds) <==> NoZero(ds) || ds[|ds| - 1].at == 0)
      && Deadline(b.timeout, b.timeoutReason) in ds
  }

  lemma UpdateSettles(b: Builder, ds: seq<Deadline>, at: Uint64, reason: Reason)
    requires Settled(b, ds)
    ensures Settled(b.UpdateTimeout(at, reason), ds + [Deadline(at, reason)])
  {
    var ds' := ds + [Deadline(at, reason)];
    assert ds'[..|ds'| - 1] == ds;
    assert ds'[|ds'| - 1] == Deadline(at, reason);
    assert forall i :: 0 <= i < |ds| ==> ds'[i] == ds[i];
    if ds != [] {
      EarliestIsLeast(ds);
    }
  }

  /** The timeout is the earliest of all deadlines registered so far, and its reason belongs to one that
      attains it.  Zero stands for no timeout, so it is the earliest exactly when no deadline is zero or the
      last one is. */
  lemma {:induction false} TimeoutIsEarliest(cfg: Config, id: nat, es: seq<Event>)
    ensures Settled(Run(cfg, id, es), Deadlines(cfg, id, es))
    decreases |es|
  {
    hide Settled;
    if es == [] {
      assert Settled(EMPTY, []) by { EmptySettled(); }
    } else {
      var front, e := es[..|es| - 1], es[|es| - 1];
      TimeoutIsEarliest(cfg, id, front);
      EventRegisters(cfg, id, Run(cfg, id, front), e);
      EventSettles(
        Run(cfg, id, front), Run(cfg, id, es), Deadlines(cfg, id, front), Registered(cfg, Run(cfg, id, front), e));
    }
  }

  lemma EmptySettled()
    ensures Settled(EMPTY, [])
  {
  }

  lemma SettledDependsOnDeadline(b: Builder, c: Builder, ds: seq<Deadline>)
    requires Settled(b, ds) && SameDeadline(c, b)
    ensures Settled(c, ds)
  {
  }

  // What an event does to the deadline.
  lemma EventRegisters(cfg: Config, id: nat, b: Builder, e: Event)
    ensures var c, added := After(cfg, id, b, e), Registered(cfg, b, e);
      |added| <= 1 && SameDeadline(c, if added == [] then b else b.UpdateTimeout(added[0].at, added[0].reason))
  {
    if e.Output? {
      OutputFramesKeeps(id, b, e.enc);
    }
  }

  predicate SameDeadline(b: Builder, c: Builder) {
    b.timeout == c.timeout && b.timeoutReason == c.timeoutReason
  }

  lemma EventSettles(b: Builder, c: Builder, ds: seq<Deadline>, added: seq<Deadline>)
    requires Settled(b, ds) && |added| <= 1
    requires SameDeadline(c, if added == [] then b else b.UpdateTimeout(added[0].at, added[0].reason))
    ensures Settled(c, ds + added)
  {
    hide Settled;
    if added == [] {
      assert ds + [] == ds;
      SettledDependsOnDeadline(b, c, ds);
    } else {
      var d := added[0];
      assert added == [d];
      UpdateSettles(b, ds, d.at, d.reason);
      SettledDependsOnDeadline(b.UpdateTimeout(d.at, d.reason), c, ds + [d]);
    }
  }

  /** Once full, a channel stays full. */
  lemma {:induction false} FullnessStays(cfg: Config, id: nat, es: seq<Event>, n: nat)
    requires n <= |es| && Run(cfg, id, es[..n]).IsFull()
    ensures Run(cfg, id, es).IsFull()
    decreases |es|
  {
    if n < |es| {
      var front := es[..|es| - 1];
      assert front[..n] == es[..n];
      FullnessStays(cfg, id, front, n);
      if es[|es| - 1].Output? {
        OutputFramesKeeps(id, Run(cfg, id, front), es[|es| - 1].enc);
      }
    } else {
      assert es[..n] == es;
    }
  }

  // The deadline an event registers, computed without wrap-around.
  predicate Fits(cfg: Config, e: Event) {
    match e
    case Add(_, outcome) =>
      outcome.Added? ==> 0 < outcome.epoch + cfg.seqWindowSize - cfg.subSafetyMargin < UINT64_RANGE
    case L1Block(n) => n + cfg.maxChannelDuration < UINT64_RANGE
    case Published(n) => 0 < n + cfg.channelTimeout - cfg.subSafetyMargin < UINT64_RANGE
    case _ => true
  }

  lemma {:induction false} RegisteredStays(cfg: Config, id: nat, es: seq<Event>, i: nat)
    requires i < |es|
    ensures forall d :: d in Registered(cfg, Run(cfg, id, es[..i]), es[i]) ==> d in Deadlines(cfg, id, es)
    decreases |es|
  {
    var front := es[..|es| - 1];
    if i < |es| - 1 {
      RegisteredStays(cfg, id, front, i);
      assert front[..i] == es[..i];
    }
  }

  lemma RegistersNonzero(cfg: Config, b: Builder, e: Event)
    requires Fits(cfg, e)
    ensures NoZero(Registered(cfg, b, e))
  {
  }

  lemma {:induction false} FittingIsNonzero(cfg: Config, id: nat, es: seq<Event>)
    requires forall e :: e in es ==> Fits(cfg, e)
    ensures NoZero(Deadlines(cfg, id, es))
    decreases |es|
  {
    if es != [] {
      FittingIsNonzero(cfg, id, es[..|es| - 1]);
      assert Fits(cfg, es[|es| - 1]);
      RegistersNonzero(cfg, Run(cfg, id, es[..|es| - 1]), es[|es| - 1]);
    }
  }

  // The block number before which a channel has to be closed because of an event.
  function ExactDeadline(cfg: Config, e: Event): int
    requires e.Add? ==> e.outcome.Added?
  {
    match e
    case Add(_, outcome) => outcome.epoch + cfg.seqWindowSize - cfg.subSafetyMargin
    case Published(n) => n + cfg.channelTimeout - cfg.subSafetyMargin
    case L1Block(n) => n + cfg.maxChannelDuration
    case _ => 0
  }

  /** A channel still open after L1 block n is ahead, by the safety margin, of the sequencing window of every
      block in it, of the channel timeout of every frame published, and of its own maximal duration. */
  lemma OpenIsAhead(cfg: Config, id: nat, es: seq<Event>, n: Uint64, i: nat)
    requires forall e :: e in es ==> Fits(cfg, e)
    requires |es| > 0 && es[|es| - 1] == L1Block(n) && !Run(cfg, id, es).IsFull()
    requires i < |es|
    requires Accepts(Run(cfg, id, es[..i]), es[i]) || es[i].Published? || (es[i].L1Block? && cfg.maxChannelDuration != 0)
    ensures n < ExactDeadline(cfg, es[i])
  {
    hide Run, Deadlines, Earliest;
    var ds, b := Deadlines(cfg, id, es), Run(cfg, id, es);
    TimeoutIsEarliest(cfg, id, es);
    FittingIsNonzero(cfg, id, es);
    RegisteredStays(cfg, id, es, i);
    var d := Registered(cfg, Run(cfg, id, es[..i]), es[i])[0];
    assert d in ds;
    EarliestIsLeast(ds);
    assert es[i] in es;
    LastRegisters(cfg, id, es, n);
  }

  lemma LastRegisters(cfg: Config, id: nat, es: seq<Event>, n: Uint64)
    requires |es| > 0 && es[|es| - 1] == L1Block(n)
    ensures var b := Run(cfg, id, es); !b.IsFull() ==> !b.TimedOut(n)
  {
  }
}
