/**
 What single calls of the channel manager do and return, in terms of the tables
 alone: above all, which transaction a request gets, and that nothing is ever
 pending that no request was given.
 */
module ChannelCalls {
  import opened Words
  import opened Wrappers
  import opened ChannelBuilding
  import opened Channels
  import opened ChannelManagement
  import opened ChannelRuns
  import opened ChannelBlocks
  import opened ChannelOrder
  import opened ChannelFrames
  import ChannelDeadlines

  // ----- Frames and blocks of one channel -----

  // The first n pulls give a frame each: data, and at most the last of them marked as last.
  predicate Gives(pulls: seq<Pull>, n: nat) {
    n <= |pulls| && (forall i :: 0 <= i < n ==> !pulls[i].PullFails?) && forall i :: 0 <= i < n - 1 ==> pulls[i].Data?
  }

  predicate EndsWithLast(pulls: seq<Pull>, n: nat) {
    0 < n <= |pulls| && pulls[n - 1].LastData?
  }

  predicate EndsWithFailure(pulls: seq<Pull>, n: nat) {
    n < |pulls| && pulls[n].PullFails? && !EndsWithLast(pulls, n)
  }

  // b' has n more frames than b, in order, with the data of the pulls and consecutive uint16 numbers.
  ghost predicate Adds(id: nat, b: Builder, b': Builder, pulls: seq<Pull>, n: nat)
    requires Gives(pulls, n)
  {
    && b'.numFrames == b.numFrames + n
    && |b'.frames| == |b.frames| + n && b'.frames[..|b.frames|] == b.frames
    && forall i :: |b.frames| <= i < |b'.frames| ==>
         var k := i - |b.frames|; b'.frames[i] == Frame(FrameId(id, (b.numFrames + k) % 0x1_0000), pulls[k].data)
  }

  // Some frame from place k on has the last number.
  predicate HasLastNumber(frames: seq<Frame>, k: nat) {
    exists i :: k <= i < |frames| && frames[i].id.number == 0xffff
  }

  lemma AddsNext(id: nat, b: Builder, b': Builder, pulls: seq<Pull>, k: nat)
    requires pulls != [] && pulls[0].Data? && Gives(pulls[1..], k) && Gives(pulls, k + 1)
    requires Adds(id, b.AddFrame(id, pulls[0].data, false), b', pulls[1..], k)
    ensures Adds(id, b, b', pulls, k + 1)
    ensures HasLastNumber(b'.frames, |b.frames|) <==>
      b.numFrames % 0x1_0000 == 0xffff || HasLastNumber(b'.frames, |b.frames| + 1)
  {
    var b1 := b.AddFrame(id, pulls[0].data, false);
    assert b'.frames[..|b.frames|] == b'.frames[..|b1.frames|][..|b.frames|];
    assert b'.frames[|b.frames|] == b'.frames[..|b1.frames|][|b.frames|];
    forall i | |b.frames| <= i < |b'.frames|
      ensures var k := i - |b.frames|; b'.frames[i] == Frame(FrameId(id, (b.numFrames + k) % 0x1_0000), pulls[k].data)
    {
      if i > |b.frames| {
        assert b1.numFrames + (i - |b1.frames|) == b.numFrames + (i - |b.frames|);
      }
    }
    assert b'.frames[|b.frames|].id.number == b.numFrames % 0x1_0000;
  }

  /** Taking frames: one for each pull up to the last frame, the first failure or the end.  It fails exactly at a
      failure, and the frame with number 65535 fills the channel. */
  lemma {:induction false} FramesTaken(id: nat, b: Builder, pulls: seq<Pull>) returns (n: nat)
    ensures Gives(pulls, n) && (n < |pulls| ==> EndsWithLast(pulls, n) || EndsWithFailure(pulls, n))
    ensures var (b', ok) := b.PullAll(id, pulls);
      && Adds(id, b, b', pulls, n) && ok == !EndsWithFailure(pulls, n)
      && b'.finished == (b.finished || EndsWithLast(pulls, n))
      && (b'.IsFull() <==> b.IsFull() || HasLastNumber(b'.frames, |b.frames|))
    decreases pulls
  {
    hide Adds;
    if pulls == [] || pulls[0].PullFails? {
      NothingTaken(id, b, pulls);
      return 0;
    }
    if pulls[0].LastData? {
      LastTaken(id, b, pulls);
      return 1;
    }
    var b1 := b.AddFrame(id, pulls[0].data, false);
    var k := FramesTaken(id, b1, pulls[1..]);
    n := k + 1;
    AddsNext(id, b, b1.PullAll(id, pulls[1..]).0, pulls, k);
  }

  lemma NothingTaken(id: nat, b: Builder, pulls: seq<Pull>)
    requires pulls == [] || pulls[0].PullFails?
    ensures Gives(pulls, 0) && Adds(id, b, b, pulls, 0) && !HasLastNumber(b.frames, |b.frames|)
  {
  }

  lemma LastTaken(id: nat, b: Builder, pulls: seq<Pull>)
    requires pulls != [] && pulls[0].LastData?
    ensures var b' := b.AddFrame(id, pulls[0].data, true);
      && Gives(pulls, 1) && Adds(id, b, b', pulls, 1)
      && (HasLastNumber(b'.frames, |b.frames|) <==> b.numFrames % 0x1_0000 == 0xffff)
  {
    var b' := b.AddFrame(id, pulls[0].data, true);
    assert b'.frames[|b.frames|].id.number == b.numFrames % 0x1_0000;
  }

  function DataBytes(frames: seq<Frame>): nat {
    if frames == [] then 0 else |frames[0].data| + DataBytes(frames[1..])
  }

  /** The output bytes of a channel grow by the data of the frames taken. */
  lemma {:induction false} BytesCounted(id: nat, b: Builder, pulls: seq<Pull>)
    ensures var b' := b.PullAll(id, pulls).0;
      && |b.frames| <= |b'.frames| && b'.frames[..|b.frames|] == b.frames
      && b'.outputBytes == b.outputBytes + DataBytes(b'.frames[|b.frames|..])
    decreases pulls
  {
    if pulls != [] && !pulls[0].PullFails? {
      var b1, b' := b.AddFrame(id, pulls[0].data, pulls[0].LastData?), b.PullAll(id, pulls).0;
      if pulls[0].Data? {
        BytesCounted(id, b1, pulls[1..]);
      }
      var added := b'.frames[|b.frames|..];
      assert b'.frames[..|b.frames|] == b'.frames[..|b1.frames|][..|b.frames|];
      assert added[0] == b'.frames[..|b1.frames|][|b.frames|] && added[1..] == b'.frames[|b1.frames|..];
    }
  }

  // The first n answers put a block each into an open channel, and none before the last of them fills it.
  predicate Takes(adds: nat -> AddOutcome, n: nat) {
    (forall j :: 0 <= j < n ==> adds(j).Added?) && forall j :: 0 <= j < n - 1 ==> !adds(j).nowFull
  }

  predicate FullAfter(adds: nat -> AddOutcome, n: nat) {
    n > 0 && adds(n - 1).Added? && adds(n - 1).nowFull
  }

  /** Adding saved blocks to an open channel: in order, until the compressor is full with one of them, one no longer
      fits, which fills the channel, one is malformed or cannot be written, which fails, or none is left. */
  lemma {:induction false} BlocksTaken(
    cfg: Config, b: Builder, blocks: seq<Block>, adds: nat -> AddOutcome, i: nat) returns (n: nat)
    requires i <= |blocks| && !b.IsFull() && Takes(adds, i) && !FullAfter(adds, i)
    ensures i <= n <= |blocks| && Takes(adds, n)
    ensures n < |blocks| && !FullAfter(adds, n) ==> !adds(n).Added?
    ensures var (b', k, ok) := AddAll(cfg, b, blocks, adds, i);
      && k == n && b'.blocks == b.blocks + blocks[i..n]
      && ok == (n == |blocks| || FullAfter(adds, n) || adds(n) in {TooBig, CompressorRefuses})
      && (b'.IsFull() <==> FullAfter(adds, n) || (n < |blocks| && adds(n) in {TooBig, CompressorRefuses}))
    decreases |blocks| - i
  {
    hide SeqWindowDeadline;
    AddAllCount(cfg, b, blocks, adds, i);
    if i == |blocks| || !adds(i).Added? {
      return i;
    }
    var b1 := b.AddBlock(cfg, blocks[i], adds(i)).0;
    if adds(i).nowFull {
      return i + 1;
    }
    n := BlocksTaken(cfg, b1, blocks, adds, i + 1);
  }

  // ----- What a request returns -----

  // What is pending and confirmed in channel k, which may not exist yet.
  function PendingAt(m: Manager, k: nat): map<FrameId, Frame> {
    if k < |m.chans| then m.chans[k].pending else map[]
  }

  function ConfirmedAt(m: Manager, k: nat): map<FrameId, Uint64> {
    if k < |m.chans| then m.chans[k].confirmed else map[]
  }

  // No channel but k has anything else pending or confirmed than before.
  ghost predicate OthersSame(m: Manager, m': Manager, k: nat) {
    && |m.chans| <= |m'.chans|
    && (forall j :: 0 <= j < |m'.chans| ==> m'.chans[j].confirmed == ConfirmedAt(m, j))
    && (forall j :: 0 <= j < |m'.chans| && j != k ==> m'.chans[j].pending == PendingAt(m, j))
  }

  ghost predicate SameTables(m: Manager, m': Manager) {
    m'.txs == m.txs && OthersSame(m, m', 0) && (|m'.chans| > 0 ==> m'.chans[0].pending == PendingAt(m, 0))
  }

  // The frame has become a pending transaction of its channel, under its own name, and nothing else has.
  ghost predicate HandsOut(m: Manager, m': Manager, f: Frame) {
    var k := f.id.channel;
    && k in m'.queue && k < |m'.chans| && OthersSame(m, m', k)
    && m'.txs == m.txs[f.id := k] && m'.chans[k].pending == PendingAt(m, k)[f.id := f]
  }

  predicate NoneQueued(m: Manager)
    requires m.Ok()
  {
    forall i :: 0 <= i < |m.queue| ==> m.chans[m.queue[i]].builder.frames == []
  }

  // Channel k is the first in the queue that has a frame.
  predicate FirstQueued(m: Manager, k: nat)
    requires m.Ok() && k < |m.chans|
  {
    && m.chans[k].builder.frames != []
    && exists i :: 0 <= i < |m.queue| && m.queue[i] == k
         && forall j :: 0 <= j < i ==> m.chans[m.queue[j]].builder.frames == []
  }

  lemma {:induction false} FirstIs(m: Manager, i: nat)
    requires m.Ok() && i <= |m.queue| && forall j :: 0 <= j < i ==> m.chans[m.queue[j]].builder.frames == []
    ensures m.FirstWithFrame(i).None? <==> NoneQueued(m)
    ensures m.FirstWithFrame(i).Some? ==> FirstQueued(m, m.FirstWithFrame(i).value)
    decreases |m.queue| - i
  {
    if i < |m.queue| && m.chans[m.queue[i]].builder.frames == [] {
      FirstIs(m, i + 1);
    }
  }

  // The channel after its first frame has become pending.
  function WithoutHead(c: Chan): Chan
    requires c.builder.frames != []
  {
    var f := c.builder.frames[0];
    c.(builder := c.builder.(frames := c.builder.frames[1..]), pending := c.pending[f.id := f])
  }

  lemma SendsHead(m: Manager, k: nat)
    requires Consistent(m) && k in m.queue && k < |m.chans| && m.chans[k].builder.frames != []
    ensures var (m', r) := m.NextTx(Some(k));
      && r.Tx? && r.frame.id.channel == k && HandsOut(m, m', r.frame)
      && m.chans[k].builder.frames[0] == r.frame
      && m' == m.(txs := m'.txs, chans := m.chans[k := WithoutHead(m.chans[k])])
  {
    hide TxsMatch, QueueInOrder;
    assert Owned(m.chans[k], k);
    assert m.chans[k].builder.frames[0] in m.chans[k].builder.frames;
  }

  /** While a queued channel has a frame, a request gets the first frame of the first such channel, and that becomes
      pending; nothing else changes. */
  lemma QueuedRequest(m: Manager, inp: TxInput)
    requires Consistent(m) && !NoneQueued(m)
    ensures var (m', r) := m.TxData(inp);
      && r.Tx? && HandsOut(m, m', r.frame)
      && var k := r.frame.id.channel;
         && k < |m.chans| && FirstQueued(m, k)
         && m.chans[k].builder.frames[0] == r.frame
         && m' == m.(txs := m'.txs, chans := m.chans[k := WithoutHead(m.chans[k])])
  {
    hide Consistent, Manager.NextTx;
    FirstIs(m, 0);
    FirstWithFrameQueued(m, 0);
    SendsHead(m, m.FirstWithFrame(0).value);
  }

  // There is no current channel, or it is full.
  predicate NeedsChannel(m: Manager)
    requires m.Ok()
  {
    m.current.None? || m.chans[m.current.value].builder.IsFull()
  }

  /** With no frame queued and no block saved there is nothing to send; if a new channel is needed and cannot be made,
      the request fails. */
  lemma IdleRequest(m: Manager, inp: TxInput)
    requires Consistent(m) && NoneQueued(m) && (m.blocks == [] || (NeedsChannel(m) && inp.createFails))
    ensures m.TxData(inp) == (m, if m.blocks == [] then Eof else Failed)
  {
    hide Manager.Fill, Consistent;
    FirstIs(m, 0);
  }

  // The channel a request fills: the current one, or a new one.
  function Target(m: Manager): nat
    requires m.Ok()
  {
    if NeedsChannel(m) then |m.chans| else m.current.value
  }

  function BuilderAt(m: Manager, k: nat): Builder {
    if k < |m.chans| then m.chans[k].builder else EMPTY
  }

  // Of so many saved blocks the one behind the first n is malformed or cannot be written.
  predicate AddFails(adds: nat -> AddOutcome, blocks: nat, n: nat) {
    n < blocks && !FullAfter(adds, n) && adds(n) in {Malformed, WriteFails}
  }

  // The channel is full with the first n blocks, or because the next one no longer fits.
  predicate FilledBy(adds: nat -> AddOutcome, blocks: nat, n: nat) {
    FullAfter(adds, n) || (n < blocks && adds(n) in {TooBig, CompressorRefuses})
  }

  // The manager with the target channel, before it is filled.
  lemma TargetIs(m: Manager)
    requires Consistent(m) && NoneQueued(m)
    ensures var r := Ensured(m); var k := Target(m);
      && r.current == Some(k) && k < |r.chans| && k in r.queue && r.HasSpace() && Consistent(r)
      && r == m.(current := Some(k), queue := r.queue, chans := r.chans)
      && r.queue == (if NeedsChannel(m) then m.queue + [k] else m.queue)
      && r.chans[k].builder == BuilderAt(m, k) && r.chans[k].builder.frames == [] && r.chans[k].id == k
      && SameTables(m, r) && OwnFrames(k, r.chans[k].builder.frames) && r.cfg == m.cfg && r.blocks == m.blocks
  {
    hide TxsMatch, OwnFrames, Increasing;
    EnsureConsistent(m);
    var r, k := Ensured(m), Target(m);
    assert Owned(r.chans[k], k);
    if !NeedsChannel(m) {
      assert m.queue[|m.queue| - 1] == k;
    }
  }

  lemma FillKeepsTables(m: Manager, r: Manager, b: Builder, blocks: seq<Block>)
    requires SameTables(m, r) && r.current.Some? && r.current.value < |r.chans|
    ensures SameTables(m, r.WithBuilder(r.current.value, b).(blocks := blocks))
  {
  }

  // Neither a block's sequencing window nor the channel's duration wraps around or ends at block 0.
  predicate DeadlinesFit(cfg: Config, inp: TxInput, blocks: nat) {
    && inp.l1Head + cfg.maxChannelDuration < UINT64_RANGE
    && forall j :: 0 <= j < blocks && inp.adds(j).Added? ==>
         0 < inp.adds(j).epoch + cfg.seqWindowSize - cfg.subSafetyMargin < UINT64_RANGE
  }

  // The deadline is ahead, by the safety margin, of the sequencing windows of the blocks from i to n.
  predicate BlocksAhead(cfg: Config, inp: TxInput, i: nat, n: nat, deadline: Uint64) {
    forall j :: i <= j < n ==>
      inp.adds(j).Added? && 0 < deadline <= inp.adds(j).epoch + cfg.seqWindowSize - cfg.subSafetyMargin
  }

  lemma EarlierIsAhead(cfg: Config, inp: TxInput, n: nat, later: Uint64, sooner: Uint64)
    requires BlocksAhead(cfg, inp, 0, n, later) && (later != 0 ==> 0 < sooner <= later)
    ensures BlocksAhead(cfg, inp, 0, n, sooner)
  {
  }

  lemma {:induction false} BlockDeadlines(
    cfg: Config, b: Builder, blocks: seq<Block>, inp: TxInput, i: nat)
    requires i <= |blocks| && DeadlinesFit(cfg, inp, |blocks|)
    ensures var (b', n, _) := AddAll(cfg, b, blocks, inp.adds, i);
      && i <= n <= |blocks| && (b.timeout != 0 ==> 0 < b'.timeout <= b.timeout)
      && BlocksAhead(cfg, inp, i, n, b'.timeout)
    decreases |blocks| - i
  {
    if i < |blocks| {
      var (b1, r) := b.AddBlock(cfg, blocks[i], inp.adds(i));
      if r == AddOk && !b1.IsFull() {
        BlockDeadlines(cfg, b1, blocks, inp, i + 1);
      }
    }
  }

  // The manager after the target channel has been filled, as far as that went.
  lemma FilledManager(m: Manager, inp: TxInput)
    requires Consistent(m) && NoneQueued(m) && m.blocks != [] && (NeedsChannel(m) ==> !inp.createFails)
    ensures var r, k := Ensured(m), Target(m); var (m2, ok) := r.Fill(inp);
      var (b1, n, added) := AddAll(m.cfg, BuilderAt(m, k), m.blocks, inp.adds, 0);
      && r.current == Some(k) && k < |r.chans| && r.chans[k].id == k && r.chans[k].builder == BuilderAt(m, k)
      && BuilderAt(m, k).frames == [] && !BuilderAt(m, k).IsFull()
      && Consistent(m2) && SameTables(m, m2) && m2.current == Some(k) && k in m2.queue && k < |m2.chans|
      && m2.queue == (if NeedsChannel(m) then m.queue + [k] else m.queue)
      && n <= |m.blocks| && m2.blocks == (if added then m.blocks[n..] else m.blocks)
      && (m2.chans[k].builder, ok) ==
           (if added then b1.RegisterL1Block(m.cfg, inp.l1Head).OutputFrames(k, inp.enc) else (b1, false))
      && m.TxData(inp) == (if ok then m2.NextTx(Some(k)) else (m2, Failed))
  {
    hide Manager.FirstWithFrame, Consistent, AddAll, Builder.RegisterL1Block, Builder.OutputFrames, SameTables,
         NoneQueued, Manager.Fill, Manager.NextTx, OwnFrames;
    FirstIs(m, 0);
    TargetIs(m);
    var r := Ensured(m);
    FillChanges(r, inp);
    FillKeepsTables(m, r, Filled(r, inp).0, r.Fill(inp).0.blocks);
    FillConsistent(r, inp);
  }

  /** A request that fills a channel leaves it with a deadline not behind the one it had, the sequencing window of any
      block that went in, less the safety margin, or its duration, counted from this L1 block. */
  lemma FillDeadlines(m: Manager, inp: TxInput)
    requires Consistent(m) && NoneQueued(m) && m.blocks != [] && (NeedsChannel(m) ==> !inp.createFails)
    requires DeadlinesFit(m.cfg, inp, |m.blocks|)
    ensures var (_, n, ok) := AddAll(m.cfg, BuilderAt(m, Target(m)), m.blocks, inp.adds, 0);
      var m', k, was := m.TxData(inp).0, Target(m), BuilderAt(m, Target(m)).timeout;
      && k < |m'.chans| && n <= |m.blocks|
      && var t := m'.chans[k].builder.timeout;
         && (was != 0 ==> 0 < t <= was)
         && BlocksAhead(m.cfg, inp, 0, n, t)
         && (ok && m.cfg.maxChannelDuration != 0 ==> 0 < t <= inp.l1Head + m.cfg.maxChannelDuration)
  {
    hide Manager.TxData, Consistent, AddAll, Builder.RegisterL1Block, Builder.OutputFrames, SameTables, NoneQueued,
         Manager.Fill, Manager.NextTx, DeadlinesFit, HandsOut, Ensured, BlocksAhead;
    FilledManager(m, inp);
    var k := Target(m);
    var (m2, ok) := Ensured(m).Fill(inp);
    BlockDeadlines(m.cfg, BuilderAt(m, k), m.blocks, inp, 0);
    var b1 := AddAll(m.cfg, BuilderAt(m, k), m.blocks, inp.adds, 0).0;
    OutputFramesKeeps(k, b1.RegisterL1Block(m.cfg, inp.l1Head), inp.enc);
    DurationFits(m.cfg, b1, inp, |m.blocks|);
    var n := AddAll(m.cfg, BuilderAt(m, k), m.blocks, inp.adds, 0).1;
    EarlierIsAhead(m.cfg, inp, n, b1.timeout, m2.chans[k].builder.timeout);
    if ok {
      SendsFirst(m, m2, k);
    }
    assert k < |m.TxData(inp).0.chans|;
    assert m.TxData(inp).0.chans[k].builder.timeout == m2.chans[k].builder.timeout;
  }

  lemma DurationFits(cfg: Config, b: Builder, inp: TxInput, blocks: nat)
    requires DeadlinesFit(cfg, inp, blocks)
    ensures var b' := b.RegisterL1Block(cfg, inp.l1Head);
      && (b.timeout != 0 ==> 0 < b'.timeout <= b.timeout)
      && (cfg.maxChannelDuration != 0 ==> 0 < b'.timeout <= inp.l1Head + cfg.maxChannelDuration)
  {
  }

  // ----- Fullness of one channel -----

  /** What makes an open channel full, and with which reason: a block too big, a compressor that refuses one or is full
      with it, an L1 block at or behind the deadline, the last frame number. */
  lemma FilledByEvent(cfg: Config, id: nat, b: Builder, e: ChannelDeadlines.Event)
    requires !b.IsFull()
    ensures var b' := ChannelDeadlines.After(cfg, id, b, e);
      b'.fullErr ==
        match e
        case Add(_, TooBig) => Some(TooManyRLPBytes)
        case Add(_, CompressorRefuses) => Some(CompressorFull)
        case Add(_, Added(_, nowFull)) => if nowFull then Some(CompressorFull) else None
        case L1Block(n) => if b'.timeout != 0 && n >= b'.timeout then Some(b'.timeoutReason) else None
        case Output(_) => if HasLastNumber(b'.frames, |b.frames|) then Some(MaxFrameIndex) else None
        case _ => None
  {
    if e.Output? {
      FullByNumber(id, b, e.enc.ready);
      var n := FramesTaken(id, b, e.enc.ready);
    }
  }

  lemma {:induction false} FullByNumber(id: nat, b: Builder, pulls: seq<Pull>)
    ensures var b' := b.PullAll(id, pulls).0; b'.fullErr == b.fullErr || b'.fullErr == Some(MaxFrameIndex)
    decreases pulls
  {
    if pulls != [] && pulls[0].Data? {
      FullByNumber(id, b.AddFrame(id, pulls[0].data, false), pulls[1..]);
    }
  }

  /** A request that fills a channel: saved blocks go in as BlocksTaken says, and frames come out as FramesTaken says,
      of what the encoder has ready while the channel is open, of all of it once it is full.  It fails if adding,
      closing or taking fails, and then no transaction is made; the blocks stay saved if adding fails.  Otherwise it
      gets the first of the frames, with the first data, or nothing if there is none. */
  lemma FillingRequest(m: Manager, inp: TxInput) returns (n: nat, full: bool, f: nat)
    requires Consistent(m) && NoneQueued(m) && m.blocks != [] && (NeedsChannel(m) ==> !inp.createFails)
    ensures n <= |m.blocks| && Takes(inp.adds, n)
    ensures n < |m.blocks| && !FullAfter(inp.adds, n) ==> !inp.adds(n).Added?
    ensures var m' := m.TxData(inp).0;
      && m'.queue == (if NeedsChannel(m) then m.queue + [Target(m)] else m.queue) && Target(m) < |m'.chans|
      && var t := m'.chans[Target(m)].builder.timeout;
         !AddFails(inp.adds, |m.blocks|, n) ==>
           (full <==> FilledBy(inp.adds, |m.blocks|, n) || (t != 0 && inp.l1Head >= t))
    ensures var pulls := if full then inp.enc.rest else inp.enc.ready;
      Gives(pulls, f) && (f < |pulls| ==> EndsWithLast(pulls, f) || EndsWithFailure(pulls, f))
    ensures var (m', r) := m.TxData(inp); var k := Target(m);
      && k < |m'.chans| && m'.current == Some(k) && m'.chans[k].builder.blocks == BuilderAt(m, k).blocks + m.blocks[..n]
    ensures var (m', r) := m.TxData(inp);
      var k, pulls := Target(m), if full then inp.enc.rest else inp.enc.ready;
      if AddFails(inp.adds, |m.blocks|, n) then r == Failed && SameTables(m, m') && m'.blocks == m.blocks
      else
        && m'.blocks == m.blocks[n..]
        && if (full && inp.enc.closeFails) || EndsWithFailure(pulls, f) then r == Failed && SameTables(m, m')
           else if f == 0 then r == Eof && SameTables(m, m')
           else
             && r == Tx(Frame(FrameId(k, BuilderAt(m, k).numFrames % 0x1_0000), pulls[0].data))
             && HandsOut(m, m', r.frame)
  {
    hide Manager.TxData, Consistent, AddAll, Builder.RegisterL1Block, Builder.PullAll, SameTables, HandsOut, NoneQueued,
         Manager.Fill, Manager.NextTx;
    FilledManager(m, inp);
    var k := Target(m);
    var (m2, ok) := Ensured(m).Fill(inp);
    var b := BuilderAt(m, k);
    n := BlocksTaken(m.cfg, b, m.blocks, inp.adds, 0);
    assert m.blocks[0..n] == m.blocks[..n];
    var b1 := AddAll(m.cfg, b, m.blocks, inp.adds, 0).0;
    AddAllKeeps(m.cfg, b, m.blocks, inp.adds, 0);
    RegisterKeeps(m.cfg, b1, inp.l1Head);
    DeadlineFills(m.cfg, b1, inp.l1Head);
    var b2 := b1.RegisterL1Block(m.cfg, inp.l1Head);
    OutputFramesKeeps(k, b2, inp.enc);
    full := b2.IsFull();
    f := FramesTaken(k, b2, if full then inp.enc.rest else inp.enc.ready);
    if ok {
      SendsFirst(m, m2, k);
    }
  }

  lemma DeadlineFills(cfg: Config, b: Builder, n: Uint64)
    ensures var b' := b.RegisterL1Block(cfg, n);
      b'.IsFull() <==> b.IsFull() || (b'.timeout != 0 && n >= b'.timeout)
  {
  }

  // The last part of a request that has filled channel k.
  lemma SendsFirst(m: Manager, m2: Manager, k: nat)
    requires SameTables(m, m2) && Consistent(m2) && m2.current == Some(k) && k in m2.queue
    ensures k < |m2.chans|
    ensures var (m', r) := m2.NextTx(Some(k)); var frames := m2.chans[k].builder.frames;
      && m'.current == m2.current && m'.blocks == m2.blocks && k < |m'.chans|
      && m'.queue == m2.queue
      && m'.chans[k].builder == m2.chans[k].builder.(frames := m'.chans[k].builder.frames)
      && if frames == [] then r == Eof && SameTables(m, m') else r == Tx(frames[0]) && HandsOut(m, m', frames[0])
  {
    hide Owned, TxsMatch;
    if m2.chans[k].builder.frames != [] {
      SendsHead(m2, k);
    }
  }

  // ----- Requests in reachable states -----

  // In which of the three ways a request is answered.
  lemma RequestCases(m: Manager, inp: TxInput)
    requires Consistent(m)
    ensures var (m', r) := m.TxData(inp); if r.Tx? then HandsOut(m, m', r.frame) else SameTables(m, m')
  {
    hide Manager.TxData, Consistent, HandsOut;
    if !NoneQueued(m) {
      QueuedRequest(m, inp);
    } else if m.blocks == [] || (NeedsChannel(m) && inp.createFails) {
      IdleRequest(m, inp);
    } else {
      var n, full, f := FillingRequest(m, inp);
    }
  }

  lemma HeadIsNew(m: Manager, k: nat)
    requires AllFramesOk(m) && k < |m.chans| && m.chans[k].builder.frames != []
    requires m.chans[k].builder.numFrames <= 0x1_0000
    ensures m.chans[k].builder.frames[0].id !in m.chans[k].pending
  {
    hide Distinct;
    var c := m.chans[k];
    assert FramesOk(c) && c.Conserved();
    assert c.builder.frames[0].id in Names(c.builder.frames);
  }

  lemma SentIsNew(m: Manager, inp: TxInput)
    requires Consistent(m) && AllFramesOk(m) && m.TxData(inp).1.Tx?
    ensures var (m', r) := m.TxData(inp); var k := r.frame.id.channel;
      k < |m'.chans| && (m'.chans[k].builder.numFrames <= 0x1_0000 ==> r.frame.id !in PendingAt(m, k))
  {
    hide Manager.Fill, Consistent, HandsOut, FramesOk, OthersSame;
    var m', r := m.TxData(inp).0, m.TxData(inp).1;
    FirstIs(m, 0);
    RequestCases(m, inp);
    assert r.frame.id.channel < |m'.chans| by { HandedOut(m, m', r.frame); }
    if !NoneQueued(m) {
      QueuedRequest(m, inp);
      NewInQueue(m, inp);
    } else {
      TargetIs(m);
      FillFrames(m, inp);
      NewWhenFilled(m, inp);
    }
  }

  lemma HandedOut(m: Manager, m': Manager, f: Frame)
    requires HandsOut(m, m', f)
    ensures f.id.channel < |m'.chans|
  {
  }

  lemma NewInQueue(m: Manager, inp: TxInput)
    requires Consistent(m) && AllFramesOk(m) && !NoneQueued(m)
    ensures var (m', r) := m.TxData(inp);
      && r.Tx? && var k := r.frame.id.channel;
         k < |m'.chans| && (m'.chans[k].builder.numFrames <= 0x1_0000 ==> r.frame.id !in PendingAt(m, k))
  {
    hide Manager.TxData, Consistent, HandsOut, FramesOk;
    QueuedRequest(m, inp);
    var k := m.TxData(inp).1.frame.id.channel;
    if m.chans[k].builder.numFrames <= 0x1_0000 {
      HeadIsNew(m, k);
    }
  }

  lemma SendsFromFilled(m: Manager, inp: TxInput)
    requires Consistent(m) && NoneQueued(m) && m.TxData(inp).1.Tx?
    ensures var m2 := Ensured(m).Fill(inp).0; var k := Target(m);
      && Consistent(m2) && SameTables(m, m2) && k in m2.queue && k < |m2.chans| && m2.current == Some(k)
      && m2.chans[k].builder.frames != [] && m.TxData(inp) == m2.NextTx(Some(k))
  {
    hide Manager.TxData, Consistent, AddAll, Builder.RegisterL1Block, Builder.OutputFrames, SameTables, NoneQueued,
         Manager.Fill;
    if m.blocks == [] || (NeedsChannel(m) && inp.createFails) {
      IdleRequest(m, inp);
    } else {
      FilledManager(m, inp);
    }
  }

  lemma NewWhenFilled(m: Manager, inp: TxInput)
    requires Consistent(m) && NoneQueued(m) && m.TxData(inp).1.Tx? && AllFramesOk(Ensured(m).Fill(inp).0)
    ensures var (m', r) := m.TxData(inp); var k := r.frame.id.channel;
      k < |m'.chans| && (m'.chans[k].builder.numFrames <= 0x1_0000 ==> r.frame.id !in PendingAt(m, k))
  {
    hide Manager.TxData, Manager.Fill, Ensured, Consistent, HandsOut, FramesOk, Manager.NextTx;
    SendsFromFilled(m, inp);
    var m2, k := Ensured(m).Fill(inp).0, Target(m);
    SendsHead(m2, k);
    if m2.chans[k].builder.numFrames <= 0x1_0000 {
      HeadIsNew(m2, k);
    }
  }

  /** In every reachable state a request returns a transaction if and only if exactly one becomes pending; it is that
      one, new as long as the channel has made no more than 65536 frames; otherwise nothing becomes pending. */
  lemma RequestExactly(cfg: Config, es: seq<Event>, inp: TxInput)
    ensures var m := Run(cfg, es).m; var (m', r) := m.TxData(inp);
      if r.Tx? then
        && HandsOut(m, m', r.frame)
        && (m'.chans[r.frame.id.channel].builder.numFrames <= 0x1_0000 ==> r.frame.id !in m.txs)
      else SameTables(m, m')
  {
    hide Run, Manager.TxData, AllFramesOk;
    var m := Run(cfg, es).m;
    FramesConserved(cfg, es);
    RequestCases(m, inp);
    if m.TxData(inp).1.Tx? {
      SentIsNew(m, inp);
      if m.TxData(inp).1.frame.id in m.txs {
        KnownIsPending(m, m.TxData(inp).1.frame.id);
      }
    }
  }

  lemma KnownIsPending(m: Manager, tx: FrameId)
    requires Consistent(m) && tx in m.txs
    ensures tx in PendingAt(m, tx.channel)
  {
  }

  // ----- The other calls -----

  /** A block is accepted if and only if nothing is accepted yet, the last one accepted has no hash, or it is the
      parent; then it is saved behind the others. */
  lemma NewBlockCall(cfg: Config, es: seq<Event>, block: Block)
    ensures var h := Run(cfg, es); var h', n := Step(h, NewBlock(block)), |h.accepted|;
      var fits := n == 0 || h.accepted[n - 1].hash == 0 || h.accepted[n - 1].hash == block.parent;
      if fits then
        h'.accepted == h.accepted + [block]
        && h'.m == h.m.(blocks := h.m.blocks + [block], tip := block.hash)
      else h' == h
  {
    hide Run;
    AcceptedAreChained(cfg, es);
  }

  /** A failed transaction that is known leaves the tables, and its frame goes to the end of its channel's queue; an
      unknown one changes nothing. */
  lemma TxFailsCall(m: Manager, tx: FrameId)
    requires Consistent(m)
    ensures var m' := m.TxFailed(tx); var k := tx.channel;
      if tx !in m.txs then m' == m
      else
        && k < |m.chans| && tx in m.chans[k].pending
        && var c := m.chans[k];
           m' == m.(
             txs := m.txs - {tx},
             chans := m.chans[k := c.(
               pending := c.pending - {tx}, builder := c.builder.(frames := c.builder.frames + [c.pending[tx]]))])
  {
  }

  // Two inclusion blocks of a channel are the channel timeout or more apart.
  predicate Apart(confirmed: map<FrameId, Uint64>, timeout: Uint64) {
    exists x, y :: x in confirmed && y in confirmed && confirmed[y] - confirmed[x] >= timeout
  }

  // The builder after it has got a deadline, which counts if it is the first or earlier than the one it has.
  function Tightened(b: Builder, at: int, reason: Reason): Builder {
    var d := at % 0x1_0000_0000_0000_0000;
    if b.timeout == 0 || d < b.timeout then b.(timeout := d, timeoutReason := reason) else b
  }

  /** A confirmed transaction that is known moves from pending to confirmed.  If its channel has now timed out, or is
      full with nothing queued or pending, the channel leaves the queue; if it has timed out, its blocks go in front
      of the saved ones.  The channel gets a deadline the safety margin before it times out, counted from this block.
      Nothing else changes; an unknown transaction changes nothing. */
  lemma TxConfirmsCall(m: Manager, tx: FrameId, n: Uint64)
    requires Consistent(m)
    ensures var m' := m.TxConfirmed(tx, n); var k := tx.channel;
      if tx !in m.txs then m' == m
      else
        && k < |m.chans| && |m'.chans| == |m.chans| && m'.txs == m.txs - {tx}
        && (forall j :: 0 <= j < |m.chans| && j != k ==> m'.chans[j] == m.chans[j])
        && var c, c' := m.chans[k], m'.chans[k];
           var timedOut := Apart(c'.confirmed, m.cfg.channelTimeout);
           var done := timedOut || (c.builder.IsFull() && c.builder.frames == [] && c.pending - {tx} == map[]);
           && c'.pending == c.pending - {tx} && c'.confirmed == c.confirmed[tx := n] && c'.id == c.id
           && c'.builder == Tightened(c.builder, n + m.cfg.channelTimeout - m.cfg.subSafetyMargin, ChannelTimeoutClose)
           && m'.blocks == (if timedOut then c.builder.blocks else []) + m.blocks
           && (forall x :: x in m'.queue <==> x in m.queue && !(x == k && done)) && Increasing(m'.queue)
           && m'.current == (if done && m.current == Some(k) then None else m.current)
           && m'.tip == m.tip && m'.base == m.base && m'.cfg == m.cfg
  {
    hide Increasing, Without, Chan.TxConfirmed, Apart;
    if tx in m.txs {
      var k := tx.channel;
      ConfirmedChannel(m.chans[k], m.cfg, tx, n);
      WithoutElements(m.queue, k);
    }
  }

  lemma ConfirmedChannel(c: Chan, cfg: Config, tx: FrameId, n: Uint64)
    requires tx in c.pending
    ensures var (c', done, back) := c.TxConfirmed(cfg, tx, n);
      var timedOut := Apart(c'.confirmed, cfg.channelTimeout);
      && c'.pending == c.pending - {tx} && c'.confirmed == c.confirmed[tx := n] && c'.id == c.id
      && c'.builder == Tightened(c.builder, n + cfg.channelTimeout - cfg.subSafetyMargin, ChannelTimeoutClose)
      && back == (if timedOut then c.builder.blocks else [])
      && done == (timedOut || (c.builder.IsFull() && c.builder.frames == [] && c.pending - {tx} == map[]))
  {
    var c' := c.Confirm(cfg, tx, n);
    assert c'.TimedOut(cfg) == Apart(c'.confirmed, cfg.channelTimeout);
    assert |c.pending - {tx}| == 0 <==> c.pending - {tx} == map[];
  }

  // ----- Whole runs -----

  // Request i of the run returned this frame.
  ghost predicate Returned(cfg: Config, es: seq<Event>, i: nat, f: Frame)
    requires i < |es|
  {
    es[i].Request? && Run(cfg, es[..i]).m.TxData(es[i].inp).1 == Tx(f)
  }

  ghost predicate SomeReturned(cfg: Config, es: seq<Event>, f: Frame) {
    exists i :: 0 <= i < |es| && Returned(cfg, es, i, f)
  }

  // All frames the requests of a run have returned.
  ghost function AllReturned(cfg: Config, es: seq<Event>): iset<Frame> {
    iset f | SomeReturned(cfg, es, f)
  }

  // Whatever is pending is one of these frames under its own name, and whatever is confirmed names one of them.
  ghost predicate Among(m: Manager, frames: iset<Frame>) {
    && (forall k, x :: 0 <= k < |m.chans| && x in m.chans[k].pending ==>
          m.chans[k].pending[x].id == x && m.chans[k].pending[x] in frames)
    && (forall k, x :: 0 <= k < |m.chans| && x in m.chans[k].confirmed ==> exists f :: f in frames && f.id == x)
  }

  lemma RequestAmong(m: Manager, inp: TxInput, frames: iset<Frame>)
    requires Consistent(m) && Among(m, frames)
    ensures var (m', r) := m.TxData(inp); Among(m', if r.Tx? then frames + iset{r.frame} else frames)
  {
    hide Manager.TxData, Consistent;
    RequestCases(m, inp);
    var m', r := m.TxData(inp).0, m.TxData(inp).1;
    forall k, x | 0 <= k < |m'.chans| && x in m'.chans[k].confirmed ensures exists f :: f in frames && f.id == x {
      assert x in m.chans[k].confirmed;
    }
  }

  lemma FailsAmong(m: Manager, tx: FrameId, frames: iset<Frame>)
    requires Consistent(m) && Among(m, frames)
    ensures Among(m.TxFailed(tx), frames)
  {
    hide Consistent, Manager.TxFailed;
    TxFailsCall(m, tx);
  }

  lemma ConfirmsAmong(m: Manager, tx: FrameId, n: Uint64, frames: iset<Frame>)
    requires Consistent(m) && Among(m, frames)
    ensures Among(m.TxConfirmed(tx, n), frames)
  {
    hide Manager.TxConfirmed, Increasing, Apart;
    TxConfirmsCall(m, tx, n);
    if tx in m.txs {
      KnownIsPending(m, tx);
      assert m.chans[tx.channel].pending[tx] in frames;
    }
  }

  lemma AmongMore(m: Manager, frames: iset<Frame>, more: iset<Frame>)
    requires Among(m, frames) && frames <= more
    ensures Among(m, more)
  {
    forall k, x | 0 <= k < |m.chans| && x in m.chans[k].confirmed ensures exists f :: f in more && f.id == x {
      var f :| f in frames && f.id == x;
      assert f in more;
    }
  }

  lemma ReturnedStays(cfg: Config, es: seq<Event>)
    requires es != []
    ensures var front, e := es[..|es| - 1], es[|es| - 1];
      && AllReturned(cfg, front) <= AllReturned(cfg, es)
      && (e.Request? ==>
            var r := Run(cfg, front).m.TxData(e.inp).1; r.Tx? ==> r.frame in AllReturned(cfg, es))
  {
    hide Run, Manager.TxData;
    var front, n := es[..|es| - 1], |es| - 1;
    forall f | f in AllReturned(cfg, front) ensures f in AllReturned(cfg, es) {
      var i :| 0 <= i < |front| && Returned(cfg, front, i, f);
      assert front[..i] == es[..i];
      assert Returned(cfg, es, i, f);
    }
    if es[n].Request? && Run(cfg, front).m.TxData(es[n].inp).1.Tx? {
      assert Returned(cfg, es, n, Run(cfg, front).m.TxData(es[n].inp).1.frame);
    }
  }

  /** Over every run a transaction is pending or confirmed only if some request has returned its frame. */
  lemma {:induction false} OnlyReturnedIsPending(cfg: Config, es: seq<Event>)
    ensures Among(Run(cfg, es).m, AllReturned(cfg, es))
    decreases |es|
  {
    hide Consistent, Among, AllReturned, Manager.TxData, Manager.TxFailed, Manager.TxConfirmed;
    if es == [] {
      assert Among(NewManager(cfg), AllReturned(cfg, es)) by { NothingAmong(cfg, AllReturned(cfg, es)); }
    } else {
      var front, e := es[..|es| - 1], es[|es| - 1];
      var m, frames := Run(cfg, front).m, AllReturned(cfg, front);
      OnlyReturnedIsPending(cfg, front);
      ReturnedStays(cfg, es);
      match e {
        case NewBlock(block) => QuietAmong(m, m.AddL2Block(block).0, frames);
        case Request(inp) =>
          RequestAmong(m, inp, frames);
          var r := m.TxData(inp).1;
          AmongMore(m.TxData(inp).0, if r.Tx? then frames + iset{r.frame} else frames, AllReturned(cfg, es));
        case TxFails(tx) => FailsAmong(m, tx, frames);
        case TxConfirms(tx, n) => ConfirmsAmong(m, tx, n, frames);
        case Cleared => QuietAmong(m, m.Clear(), frames);
      }
      if !e.Request? {
        AmongMore(Run(cfg, es).m, frames, AllReturned(cfg, es));
      }
    }
  }

  lemma NothingAmong(cfg: Config, frames: iset<Frame>)
    ensures Among(NewManager(cfg), frames)
  {
  }

  lemma QuietAmong(m: Manager, m': Manager, frames: iset<Frame>)
    requires Among(m, frames) && m'.chans == m.chans
    ensures Among(m', frames)
  {
  }
}
