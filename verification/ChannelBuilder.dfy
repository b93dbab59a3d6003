/**
 The batcher's channel builder: L2 blocks go in, frames come out.  The
 compressor and the channel encoder behind it are seen only through the answers
 they give, which are parameters here.
 */
module ChannelBuilding {
  import opened Words
  import opened Wrappers

  const MAX_FRAME := 0xFFFF

  type BlockHash = nat // the Go zero hash is 0
  datatype Block = Block(hash: BlockHash, parent: BlockHash)

  datatype Config = Config(
    seqWindowSize: Uint64, channelTimeout: Uint64, maxChannelDuration: Uint64, subSafetyMargin: Uint64)

  // Why a channel is full; Unset is the nil error.
  datatype Reason =
    | TooManyRLPBytes | CompressorFull | MaxFrameIndex | MaxDurationReached | ChannelTimeoutClose | SeqWindowClose
    | Unset

  // A frame is named by its channel and its number, a uint16.
  datatype FrameId = FrameId(channel: nat, number: nat)
  datatype Frame = Frame(id: FrameId, data: seq<Byte>)

  /** What the conversion of a block and the compressor answer to a new block: the block is malformed or cannot
      be written, it no longer fits, or it went in and brings the number of its L1 origin along. */
  datatype AddOutcome = Malformed | TooBig | CompressorRefuses | WriteFails | Added(epoch: Uint64, nowFull: bool)

  datatype AddResult = AddOk | AddFull | AddFailed

  // What the encoder answers to a request for one more frame.
  datatype Pull = Data(data: seq<Byte>) | LastData(data: seq<Byte>) | PullFails

  // A closed encoder goes on until the last frame or an error.
  predicate Drains(pulls: seq<Pull>) {
    |pulls| > 0 && !pulls[|pulls| - 1].Data?
  }

  type DrainPulls = p: seq<Pull> | Drains(p) witness [PullFails]

  function SeqWindowDeadline(cfg: Config, epoch: Uint64): Uint64 {
    (epoch + cfg.seqWindowSize - cfg.subSafetyMargin) % UINT64_RANGE
  }

  function ChannelDeadline(cfg: Config, inclusion: Uint64): Uint64 {
    (inclusion + cfg.channelTimeout - cfg.subSafetyMargin) % UINT64_RANGE
  }

  function DurationDeadline(cfg: Config, l1: Uint64): Uint64 {
    (l1 + cfg.maxChannelDuration) % UINT64_RANGE
  }

  // What the encoder answers while frames are taken from it, open or closed.
  datatype Encoder = Encoder(ready: seq<Pull>, closeFails: bool, rest: DrainPulls)

  /** The builder as a value.  `finished` says that the frame marked last has been taken. */
  datatype Builder = Builder(
    timeout: Uint64, timeoutReason: Reason, fullErr: Option<Reason>, blocks: seq<Block>,
    frames: seq<Frame>, numFrames: nat, outputBytes: nat, finished: bool)
  {
    predicate IsFull() {
      fullErr.Some?
    }

    // ----- Deadlines -----

    function UpdateTimeout(at: Uint64, reason: Reason): Builder {
      if timeout == 0 || timeout > at then this.(timeout := at, timeoutReason := reason) else this
    }

    predicate TimedOut(n: Uint64) {
      timeout != 0 && n >= timeout
    }

    function CheckTimeout(n: Uint64): Builder {
      if !IsFull() && TimedOut(n) then this.(fullErr := Some(timeoutReason)) else this
    }

    function RegisterL1Block(cfg: Config, n: Uint64): Builder {
      var timed :=
        if cfg.maxChannelDuration == 0 then this else UpdateTimeout(DurationDeadline(cfg, n), MaxDurationReached);
      timed.CheckTimeout(n)
    }

    function FramePublished(cfg: Config, n: Uint64): Builder {
      UpdateTimeout(ChannelDeadline(cfg, n), ChannelTimeoutClose)
    }

    // ----- Blocks -----

    function AddBlock(cfg: Config, block: Block, outcome: AddOutcome): (Builder, AddResult) {
      if IsFull() then (this, AddFull)
      else
        match outcome
        case Malformed => (this, AddFailed)
        case TooBig => (this.(fullErr := Some(TooManyRLPBytes)), AddFull)
        case CompressorRefuses => (this.(fullErr := Some(CompressorFull)), AddFull)
        case WriteFails => (this, AddFailed)
        case Added(epoch, nowFull) =>
          var c := this.(blocks := blocks + [block]).UpdateTimeout(SeqWindowDeadline(cfg, epoch), SeqWindowClose);
          (if nowFull then c.(fullErr := Some(CompressorFull)) else c, AddOk)
    }

    // ----- Frames -----

    function Push(frame: Frame): Builder {
      this.(frames := frames + [frame])
    }

    // Go truncates the encoder's frame counter to a uint16.
    function AddFrame(id: nat, data: seq<Byte>, last: bool): Builder {
      var fn := numFrames % (MAX_FRAME + 1);
      Push(Frame(FrameId(id, fn), data)).(
        fullErr := if fn == MAX_FRAME then Some(MaxFrameIndex) else fullErr,
        numFrames := numFrames + 1, outputBytes := outputBytes + |data|, finished := finished || last)
    }

    // Take frames until the encoder has no more, delivers the last one or fails.
    function PullAll(id: nat, pulls: seq<Pull>): (Builder, bool)
      decreases pulls
    {
      if pulls == [] then (this, true)
      else
        match pulls[0]
        case Data(data) => AddFrame(id, data, false).PullAll(id, pulls[1..])
        case LastData(data) => (AddFrame(id, data, true), true)
        case PullFails => (this, false)
    }

    function OutputFrames(id: nat, enc: Encoder): (Builder, bool) {
      if !IsFull() then PullAll(id, enc.ready)
      else if enc.closeFails then (this, false)
      else PullAll(id, enc.rest)
    }
  }

  const EMPTY := Builder(0, Unset, None, [], [], 0, 0, false)

  // ----- The builder itself -----

  // Taking frames changes neither the deadline nor the blocks, and a full channel stays full.
  predicate SameButFrames(b: Builder, b': Builder) {
    && b'.timeout == b.timeout && b'.timeoutReason == b.timeoutReason && b'.blocks == b.blocks
    && (b.IsFull() ==> b'.IsFull())
  }

  lemma {:induction false} PullAllKeeps(id: nat, b: Builder, pulls: seq<Pull>)
    ensures SameButFrames(b, b.PullAll(id, pulls).0)
    decreases pulls
  {
    if pulls != [] && pulls[0].Data? {
      PullAllKeeps(id, b.AddFrame(id, pulls[0].data, false), pulls[1..]);
    }
  }

  lemma OutputFramesKeeps(id: nat, b: Builder, enc: Encoder)
    ensures SameButFrames(b, b.OutputFrames(id, enc).0)
  {
    PullAllKeeps(id, b, enc.ready);
    PullAllKeeps(id, b, enc.rest);
  }

  class ChannelBuilder {
    const cfg: Config
    const id: nat
    var timeout: Uint64
    var timeoutReason: Reason
    var fullErr: Option<Reason>
    var blocks: seq<Block>
    var frames: seq<Frame>
    var numFrames: nat
    var outputBytes: nat
    ghost var finished: bool // the frame marked last has been taken

    ghost function Value(): Builder
      reads this
    {
      Builder(timeout, timeoutReason, fullErr, blocks, frames, numFrames, outputBytes, finished)
    }

    constructor (cfg: Config, id: nat)
      ensures Value() == EMPTY && this.cfg == cfg && this.id == id
    {
      this.cfg, this.id := cfg, id;
      timeout, timeoutReason, fullErr := 0, Unset, None;
      blocks, frames, numFrames, outputBytes, finished := [], [], 0, 0, false;
    }

    predicate IsFull()
      reads this
      ensures IsFull() == Value().IsFull()
    {
      fullErr.Some?
    }

    method UpdateTimeout(at: Uint64, reason: Reason)
      modifies this
      ensures Value() == old(Value()).UpdateTimeout(at, reason)
    {
      if timeout == 0 || timeout > at {
        timeout := at;
        timeoutReason := reason;
      }
    }

    method CheckTimeout(n: Uint64)
      modifies this
      ensures Value() == old(Value()).CheckTimeout(n)
    {
      if !IsFull() && timeout != 0 && n >= timeout {
        fullErr := Some(timeoutReason);
      }
    }

    method RegisterL1Block(n: Uint64)
      modifies this
      ensures Value() == old(Value()).RegisterL1Block(cfg, n)
    {
      if cfg.maxChannelDuration != 0 {
        UpdateTimeout(DurationDeadline(cfg, n), MaxDurationReached);
      }
      CheckTimeout(n);
    }

    method FramePublished(n: Uint64)
      modifies this
      ensures Value() == old(Value()).FramePublished(cfg, n)
    {
      UpdateTimeout(ChannelDeadline(cfg, n), ChannelTimeoutClose);
    }

    method AddBlock(block: Block, outcome: AddOutcome) returns (res: AddResult)
      modifies this
      ensures (Value(), res) == old(Value()).AddBlock(cfg, block, outcome)
    {
      if IsFull() {
        return AddFull;
      }
      match outcome {
        case Malformed =>
          return AddFailed;
        case TooBig =>
          fullErr := Some(TooManyRLPBytes);
          return AddFull;
        case CompressorRefuses =>
          fullErr := Some(CompressorFull);
          return AddFull;
        case WriteFails =>
          return AddFailed;
        case Added(epoch, nowFull) =>
          blocks := blocks + [block];
          UpdateTimeout(SeqWindowDeadline(cfg, epoch), SeqWindowClose);
          if nowFull {
            fullErr := Some(CompressorFull);
          }
          return AddOk;
      }
    }

    method OutputFrame(data: seq<Byte>, last: bool)
      modifies this
      ensures Value() == old(Value()).AddFrame(id, data, last)
    {
      var fn := numFrames % (MAX_FRAME + 1);
      if fn == MAX_FRAME {
        fullErr := Some(MaxFrameIndex);
      }
      frames := frames + [Frame(FrameId(id, fn), data)];
      numFrames := numFrames + 1;
      outputBytes := outputBytes + |data|;
      finished := finished || last;
    }

    // The loop of both outputReadyFrames and closeAndOutputAllFrames.
    method TakeFrames(pulls: seq<Pull>) returns (ok: bool)
      modifies this
      ensures (Value(), ok) == old(Value()).PullAll(id, pulls)
    {
      var i := 0;
      while i < |pulls|
        invariant i <= |pulls|
        invariant old(Value()).PullAll(id, pulls) == Value().PullAll(id, pulls[i..])
      {
        match pulls[i] {
          case Data(data) =>
            OutputFrame(data, false);
          case LastData(data) =>
            OutputFrame(data, true);
            return true;
          case PullFails =>
            return false;
        }
        i := i + 1;
      }
      return true;
    }

    method OutputFrames(enc: Encoder) returns (ok: bool)
      modifies this
      ensures (Value(), ok) == old(Value()).OutputFrames(id, enc)
    {
      if !IsFull() {
        ok := TakeFrames(enc.ready);
      } else if enc.closeFails {
        ok := false;
      } else {
        ok := TakeFrames(enc.rest);
      }
    }

    predicate HasFrame()
      reads this
      ensures HasFrame() == (Value().frames != [])
    {
      |frames| > 0
    }

    method NextFrame() returns (f: Frame)
      requires HasFrame()
      modifies this
      ensures f == old(frames[0]) && Value() == old(Value()).(frames := old(frames[1..]))
    {
      f := frames[0];
      frames := frames[1..];
    }

    // A frame of another channel would be a panic.
    method PushFrame(frame: Frame)
      requires frame.id.channel == id
      modifies this
      ensures Value() == old(Value()).Push(frame)
    {
      frames := frames + [frame];
    }
  }
}
