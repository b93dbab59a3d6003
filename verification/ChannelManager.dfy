/**
 The channel manager of the batcher: accepted L2 blocks go into channels,
 channels into frames, frames into transactions that fail or get confirmed.
 */
module ChannelManagement {
  import opened Words
  import opened Wrappers
  import opened ChannelBuilding
  import opened Channels

  // What the outside world answers during one request for transaction data.
  datatype TxInput = TxInput(l1Head: Uint64, createFails: bool, adds: nat -> AddOutcome, enc: Encoder)

  datatype TxResult = Tx(frame: Frame) | Eof | Failed

  // Put blocks[i..] into the channel until it is full or one fails; how many of all blocks are in, and success.
  function AddAll(cfg: Config, b: Builder, blocks: seq<Block>, adds: nat -> AddOutcome, i: nat): (Builder, nat, bool)
    requires i <= |blocks|
    decreases |blocks| - i
  {
    if i == |blocks| then (b, i, true)
    else
      match b.AddBlock(cfg, blocks[i], adds(i))
      case (b', AddFull) => (b', i, true)
      case (b', AddFailed) => (b', i, false)
      case (b', AddOk) => if b'.IsFull() then (b', i + 1, true) else AddAll(cfg, b', blocks, adds, i + 1)
  }

  // The queue without the first occurrence of k.
  function Without(queue: seq<nat>, k: nat): seq<nat> {
    if queue == [] then []
    else if queue[0] == k then queue[1..]
    else [queue[0]] + Without(queue[1..], k)
  }

  lemma {:induction false} WithoutAt(queue: seq<nat>, k: nat, i: nat)
    requires i <= |queue| && k !in queue[..i] && (i < |queue| ==> queue[i] == k)
    ensures Without(queue, k) == if i == |queue| then queue else queue[..i] + queue[i + 1..]
    decreases |queue|
  {
    if 0 < i {
      assert queue[0] == queue[..i][0];
      assert queue[1..][..i - 1] == queue[..i][1..];
      WithoutAt(queue[1..], k, i - 1);
      assert i < |queue| ==> queue[..i] + queue[i + 1..] == [queue[0]] + (queue[1..][..i - 1] + queue[1..][i..]);
    }
  }

  /** The manager as a value: channels are numbered in the order of their creation, and `base` is the first
      one created after the last Clear. */
  datatype Manager = Manager(
    cfg: Config, blocks: seq<Block>, tip: BlockHash, current: Option<nat>, queue: seq<nat>,
    txs: map<FrameId, nat>, chans: seq<Chan>, base: nat)
  {
    predicate Ok() {
      && (current.Some? ==> current.value < |chans|)
      && (forall i :: 0 <= i < |queue| ==> queue[i] < |chans|)
      && (forall tx :: tx in txs ==> txs[tx] < |chans|)
    }

    function Clear(): Manager {
      Manager(cfg, [], 0, None, [], map[], chans, |chans|)
    }

    // The new manager and whether the block extends the chain.
    function AddL2Block(block: Block): (Manager, bool) {
      if tip != 0 && tip != block.parent then (this, false)
      else (this.(blocks := blocks + [block], tip := block.hash), true)
    }

    function TxFailed(tx: FrameId): Manager
      requires Ok()
    {
      if tx !in txs then this
      else var k := txs[tx]; this.(txs := txs - {tx}, chans := chans[k := chans[k].TxFailed(tx)])
    }

    function Remove(k: nat): Manager {
      this.(current := if current == Some(k) then None else current, queue := Without(queue, k))
    }

    function TxConfirmed(tx: FrameId, n: Uint64): Manager
      requires Ok()
    {
      if tx !in txs then this
      else
        var k := txs[tx];
        var (c, done, back) := chans[k].TxConfirmed(cfg, tx, n);
        var m := this.(txs := txs - {tx}, chans := chans[k := c], blocks := back + blocks);
        if done then m.Remove(k) else m
    }

    // The first channel in the queue that has a frame.
    function FirstWithFrame(i: nat): Option<nat>
      requires Ok() && i <= |queue|
      ensures var r := FirstWithFrame(i); r.Some? ==> r.value < |chans| && chans[r.value].builder.frames != []
      decreases |queue| - i
    {
      if i == |queue| then None
      else if chans[queue[i]].builder.frames != [] then Some(queue[i])
      else FirstWithFrame(i + 1)
    }

    function NextTx(k: Option<nat>): (Manager, TxResult)
      requires k.Some? ==> k.value < |chans|
    {
      if k.None? || chans[k.value].builder.frames == [] then (this, Eof)
      else
        var (c, f) := chans[k.value].NextTx();
        (this.(chans := chans[k.value := c], txs := txs[f.id := k.value]), Tx(f))
    }

    predicate HasSpace() {
      current.Some? && current.value < |chans| && !chans[current.value].builder.IsFull()
    }

    function EnsureChannelWithSpace(): Manager {
      if HasSpace() then this
      else this.(current := Some(|chans|), queue := queue + [|chans|], chans := chans + [NewChan(|chans|)])
    }

    function WithBuilder(k: nat, b: Builder): Manager
      requires k < |chans|
    {
      this.(chans := chans[k := chans[k].(builder := b)])
    }

    function ProcessBlocks(adds: nat -> AddOutcome): (Manager, bool)
      requires current.Some? && current.value < |chans|
    {
      var (b, n, ok) := AddAll(cfg, chans[current.value].builder, blocks, adds, 0);
      var m := WithBuilder(current.value, b);
      (if ok && n <= |blocks| then m.(blocks := blocks[n..]) else m, ok)
    }

    function RegisterL1Block(n: Uint64): Manager
      requires current.Some? && current.value < |chans|
    {
      WithBuilder(current.value, chans[current.value].builder.RegisterL1Block(cfg, n))
    }

    function OutputFrames(enc: Encoder): (Manager, bool)
      requires current.Some? && current.value < |chans|
    {
      var (b, ok) := chans[current.value].builder.OutputFrames(chans[current.value].id, enc);
      (WithBuilder(current.value, b), ok)
    }

    // Fill the current channel from the saved blocks.
    function Fill(inp: TxInput): (Manager, bool)
      requires current.Some? && current.value < |chans|
    {
      var (m, added) := ProcessBlocks(inp.adds);
      if !added then (m, false)
      else m.RegisterL1Block(inp.l1Head).OutputFrames(inp.enc)
    }

    function TxData(inp: TxInput): (Manager, TxResult)
      requires Ok()
    {
      var first := FirstWithFrame(0);
      if first.Some? then NextTx(first)
      else if blocks == [] then (this, Eof)
      else if !HasSpace() && inp.createFails then (this, Failed)
      else
        var (m, ok) := EnsureChannelWithSpace().Fill(inp);
        if ok then m.NextTx(m.current) else (m, Failed)
    }
  }

  function NewManager(cfg: Config): Manager {
    Manager(cfg, [], 0, None, [], map[], [], 0)
  }

  lemma {:induction false} AddAllCount(cfg: Config, b: Builder, blocks: seq<Block>, adds: nat -> AddOutcome, i: nat)
    requires i <= |blocks|
    ensures var (b', n, ok) := AddAll(cfg, b, blocks, adds, i);
      i <= n <= |blocks| && b'.blocks == b.blocks + blocks[i..n]
    decreases |blocks| - i
  {
    hide SeqWindowDeadline;
    if i < |blocks| {
      var (b', r) := b.AddBlock(cfg, blocks[i], adds(i));
      if r == AddOk && !b'.IsFull() {
        AddAllCount(cfg, b', blocks, adds, i + 1);
        var n := AddAll(cfg, b, blocks, adds, i).1;
        assert blocks[i..n] == [blocks[i]] + blocks[i + 1..n];
      } else {
        assert b.blocks + blocks[i..i] == b.blocks;
        assert blocks[i..i + 1] == [blocks[i]];
      }
    } else {
      assert blocks[i..i] == [];
    }
  }

  function Ids(queue: seq<Channel>): (ids: seq<nat>)
    ensures |ids| == |queue| && forall i :: 0 <= i < |queue| ==> ids[i] == queue[i].channelBuilder.id
  {
    seq(|queue|, i requires 0 <= i < |queue| => queue[i].channelBuilder.id)
  }

  lemma IdsWithout(queue: seq<Channel>, i: nat)
    requires i < |queue|
    ensures Ids(queue[..i] + queue[i + 1..]) == Ids(queue)[..i] + Ids(queue)[i + 1..]
  {
  }

  function TxIds(txs: map<FrameId, Channel>): (ids: map<FrameId, nat>)
    ensures ids.Keys == txs.Keys && forall tx :: tx in txs ==> ids[tx] == txs[tx].channelBuilder.id
  {
    map tx | tx in txs :: txs[tx].channelBuilder.id
  }

  lemma TxIdsWithout(txs: map<FrameId, Channel>, tx: FrameId)
    ensures TxIds(txs - {tx}) == TxIds(txs) - {tx}
  {
  }

  lemma TxIdsWith(txs: map<FrameId, Channel>, tx: FrameId, channel: Channel)
    ensures TxIds(txs[tx := channel]) == TxIds(txs)[tx := channel.channelBuilder.id]
  {
  }

  // ----- The manager itself -----

  class ChannelManager {
    const cfg: Config
    var blocks: seq<Block>
    var tip: BlockHash
    var currentChannel: Channel?
    var channelQueue: seq<Channel>
    var txChannels: map<FrameId, Channel>
    var nextId: nat // stands for the random channel ids
    ghost var created: seq<Channel>
    ghost var chans: seq<Chan> // their values
    ghost var base: nat

    constructor (cfg: Config)
      ensures Valid() && Value() == NewManager(cfg)
    {
      this.cfg := cfg;
      blocks, tip, currentChannel, channelQueue, txChannels := [], 0, null, [], map[];
      nextId, created, chans, base := 0, [], [], 0;
    }

    ghost function Objects(): (objects: set<object>)
      reads `created
      ensures forall i :: 0 <= i < |created| ==> created[i] in objects && created[i].channelBuilder in objects
    {
      (set i | 0 <= i < |created| :: created[i] as object)
      + (set i | 0 <= i < |created| :: created[i].channelBuilder as object)
    }

    // One of the channels created by this manager.
    ghost predicate Has(c: Channel)
      reads `created
    {
      c.channelBuilder.id < |created| && created[c.channelBuilder.id] == c
    }

    // The channel number k, with the value v.
    ghost predicate Is(c: Channel, k: nat, v: Chan)
      reads c, c.channelBuilder
    {
      c.channelBuilder.id == k && c.channelBuilder.cfg == cfg && c.Valid() && c.Value() == v
    }

    // The channels have the values recorded for them.
    ghost predicate Tracked()
      reads `created, `chans, Objects()
    {
      |created| == |chans| && forall i :: 0 <= i < |created| ==> Is(created[i], i, chans[i])
    }

    // The manager refers to its own channels only.
    ghost predicate Linked()
      reads `created, `nextId, `currentChannel, `channelQueue, `txChannels
    {
      && |created| == nextId
      && (currentChannel != null ==> Has(currentChannel))
      && (forall i :: 0 <= i < |channelQueue| ==> Has(channelQueue[i]))
      && (forall tx :: tx in txChannels ==> Has(txChannels[tx]))
    }

    ghost predicate Valid()
      reads this, Objects()
    {
      Tracked() && Linked()
    }

    lemma Lookup(c: Channel)
      requires Valid() && Has(c)
      ensures |chans| == |created| == nextId && Is(c, c.channelBuilder.id, chans[c.channelBuilder.id])
      ensures c in Objects() && c.channelBuilder in Objects()
    {
      assert c in created;
    }

    ghost function Value(): Manager
      reads this
    {
      Manager(
        cfg, blocks, tip, if currentChannel == null then None else Some(currentChannel.channelBuilder.id),
        Ids(channelQueue), TxIds(txChannels), chans, base)
    }

    // After a change of the channel k alone.
    twostate lemma OthersStay(k: nat)
      requires old(Tracked()) && created == old(created) && k < |created| == |chans|
      requires chans == old(chans)[k := created[k].Value()]
      requires forall i :: 0 <= i < |created| && i != k ==> unchanged(created[i]) && unchanged(created[i].channelBuilder)
      requires Is(created[k], k, chans[k])
      ensures Tracked()
    {
      hide Channel.Valid, Channel.Value;
      forall i | 0 <= i < |created| ensures Is(created[i], i, chans[i]) {
        if i != k {
          assert old(Is(created[i], i, chans[i]));
        }
      }
    }

    // Channels with different numbers share nothing.
    lemma Apart(c: Channel)
      requires Valid() && Has(c)
      ensures forall i :: 0 <= i < |created| && i != c.channelBuilder.id ==>
                created[i] != c && created[i].channelBuilder != c.channelBuilder
    {
      forall i | 0 <= i < |created| && i != c.channelBuilder.id
        ensures created[i] != c && created[i].channelBuilder != c.channelBuilder
      {
        assert Is(created[i], i, chans[i]);
      }
    }

    method Clear()
      requires Valid()
      modifies this
      ensures Valid() && Value() == old(Value()).Clear() && created == old(created)
    {
      blocks, tip, currentChannel, channelQueue, txChannels := [], 0, null, [], map[];
      base := |created|;
    }

    method AddL2Block(block: Block) returns (ok: bool)
      requires Valid()
      modifies this
      ensures Valid() && (Value(), ok) == old(Value()).AddL2Block(block) && created == old(created)
    {
      if tip != 0 && tip != block.parent {
        return false;
      }
      blocks := blocks + [block];
      tip := block.hash;
      return true;
    }

    method TxFailed(tx: FrameId)
      requires Valid()
      modifies this, Objects()
      ensures Valid() && Value() == old(Value()).TxFailed(tx) && created == old(created)
    {
      hide Channel.Valid, Channel.Value, TxIds, Ids, Chan.TxFailed, Tracked, Objects;
      if tx in txChannels {
        var channel := txChannels[tx];
        Lookup(channel);
        Apart(channel);
        txChannels := txChannels - {tx};
        TxIdsWithout(old(txChannels), tx);
        channel.TxFailed(tx);
        chans := chans[channel.channelBuilder.id := channel.Value()];
        OthersStay(channel.channelBuilder.id);
      }
    }

    method TxConfirmed(tx: FrameId, n: Uint64)
      requires Valid()
      modifies this, Objects()
      ensures Valid() && Value() == old(Value()).TxConfirmed(tx, n) && created == old(created)
    {
      hide Channel.Valid, Channel.Value, TxIds, Ids, Chan.TxConfirmed, Tracked, Objects, Manager.Remove;
      if tx in txChannels {
        var channel := txChannels[tx];
        Lookup(channel);
        Apart(channel);
        txChannels := txChannels - {tx};
        TxIdsWithout(old(txChannels), tx);
        var done, back := channel.TxConfirmed(tx, n);
        chans := chans[channel.channelBuilder.id := channel.Value()];
        blocks := back + blocks;
        OthersStay(channel.channelBuilder.id);
        if done {
          RemovePendingChannel(channel);
        }
      }
    }

    method RemovePendingChannel(channel: Channel)
      requires Valid() && Has(channel)
      modifies this
      ensures Valid() && Value() == old(Value()).Remove(channel.channelBuilder.id) && created == old(created)
    {
      hide Channel.Valid, Channel.Value, TxIds, Ids, Without, Is;
      if currentChannel == channel {
        currentChannel := null;
      }
      ghost var ids, k := Ids(channelQueue), channel.channelBuilder.id;
      var i := 0;
      while i < |channelQueue| && channelQueue[i] != channel
        invariant i <= |channelQueue|
        invariant k !in ids[..i]
      {
        assert Has(channelQueue[i]);
        i := i + 1;
      }
      WithoutAt(ids, k, i);
      if i == |channelQueue| {
        return;
      }
      channelQueue := channelQueue[..i] + channelQueue[i + 1..];
      IdsWithout(old(channelQueue), i);
    }

    method NextTxData(channel: Channel?) returns (res: TxResult)
      requires Valid() && (channel != null ==> Has(channel))
      modifies this, Objects()
      ensures Valid() && created == old(created)
      ensures (Value(), res) == old(Value()).NextTx(if channel == null then None else Some(channel.channelBuilder.id))
    {
      hide Channel.Valid, Channel.Value, TxIds, Ids, Chan.NextTx, Tracked, Objects;
      if channel == null {
        return Eof;
      }
      Lookup(channel);
      Apart(channel);
      if !channel.HasFrame() {
        return Eof;
      }
      var tx := channel.NextTxData();
      chans := chans[channel.channelBuilder.id := channel.Value()];
      txChannels := txChannels[tx.id := channel];
      OthersStay(channel.channelBuilder.id);
      TxIdsWith(old(txChannels), tx.id, channel);
      return Tx(tx);
    }

    method TxData(inp: TxInput) returns (res: TxResult)
      requires Valid()
      modifies this, Objects()
      ensures Valid() && (Value(), res) == old(Value()).TxData(inp)
      ensures created == old(created)
              || exists c :: created == old(created) + [c] && fresh(c) && fresh(c.channelBuilder)
    {
      hide Channel.Valid, Channel.Value, TxIds, Ids, Manager.Fill, Manager.NextTx;
      var firstWithFrame: Channel? := null;
      var i := 0;
      while i < |channelQueue|
        invariant i <= |channelQueue|
        invariant firstWithFrame == null
        invariant Value().FirstWithFrame(0) == Value().FirstWithFrame(i)
      {
        if channelQueue[i].HasFrame() {
          firstWithFrame := channelQueue[i];
          break;
        }
        i := i + 1;
      }
      if firstWithFrame != null {
        res := NextTxData(firstWithFrame);
        return;
      }
      if |blocks| == 0 {
        return Eof;
      }
      if currentChannel != null {
        Lookup(currentChannel);
      }
      if currentChannel == null || currentChannel.IsFull() {
        if inp.createFails {
          return Failed;
        }
        CreateChannel();
      }
      var ok := Fill(inp);
      if !ok {
        return Failed;
      }
      res := NextTxData(currentChannel);
    }

    // The last part of TxData, up to the frames of the current channel.
    method Fill(inp: TxInput) returns (ok: bool)
      requires Valid() && currentChannel != null
      modifies this, Objects()
      ensures Valid() && (Value(), ok) == old(Value()).Fill(inp)
      ensures created == old(created) && currentChannel == old(currentChannel)
    {
      hide Channel.Valid, Channel.Value, TxIds, Ids, AddAll, Builder.RegisterL1Block, Builder.OutputFrames,
           Tracked, Objects;
      ok := ProcessBlocks(inp.adds);
      if ok {
        RegisterL1Block(inp.l1Head);
        ok := OutputFrames(inp.enc);
      }
    }

    method RegisterL1Block(n: Uint64)
      requires Valid() && currentChannel != null
      modifies this, Objects()
      ensures Valid() && Value() == old(Value()).RegisterL1Block(n)
      ensures created == old(created) && currentChannel == old(currentChannel)
    {
      Lookup(currentChannel);
      Apart(currentChannel);
      currentChannel.RegisterL1Block(n);
      chans := chans[currentChannel.channelBuilder.id := currentChannel.Value()];
      OthersStay(currentChannel.channelBuilder.id);
    }

    method OutputFrames(enc: Encoder) returns (ok: bool)
      requires Valid() && currentChannel != null
      modifies this, Objects()
      ensures Valid() && (Value(), ok) == old(Value()).OutputFrames(enc)
      ensures created == old(created) && currentChannel == old(currentChannel)
    {
      Lookup(currentChannel);
      Apart(currentChannel);
      ok := currentChannel.OutputFrames(enc);
      chans := chans[currentChannel.channelBuilder.id := currentChannel.Value()];
      OthersStay(currentChannel.channelBuilder.id);
    }

    method CreateChannel()
      requires Valid() && !Value().HasSpace()
      modifies this
      ensures Valid() && Value() == old(Value()).EnsureChannelWithSpace()
      ensures currentChannel != null && fresh(currentChannel) && fresh(currentChannel.channelBuilder)
      ensures created == old(created) + [currentChannel]
    {
      hide Channel.Valid, Channel.Value, TxIds;
      var pc := new Channel(cfg, nextId);
      currentChannel := pc;
      channelQueue := channelQueue + [pc];
      created := created + [pc];
      chans := chans + [pc.Value()];
      nextId := nextId + 1;
      assert Ids(channelQueue) == old(Ids(channelQueue)) + [old(nextId)];
    }

    method AddBlock(block: Block, outcome: AddOutcome) returns (res: AddResult)
      requires Valid() && currentChannel != null
      modifies this, Objects()
      ensures Valid() && created == old(created) && currentChannel == old(currentChannel)
      ensures var k, m := old(currentChannel.channelBuilder.id), old(Value());
        var (b, r) := m.chans[k].builder.AddBlock(cfg, block, outcome);
        Value() == m.WithBuilder(k, b) && res == r
    {
      hide Channel.Valid, Channel.Value, TxIds, Ids, Builder.AddBlock, Tracked, Objects;
      Lookup(currentChannel);
      Apart(currentChannel);
      res := currentChannel.AddBlock(block, outcome);
      chans := chans[currentChannel.channelBuilder.id := currentChannel.Value()];
      OthersStay(currentChannel.channelBuilder.id);
    }

    method ProcessBlocks(adds: nat -> AddOutcome) returns (ok: bool)
      requires Valid() && currentChannel != null
      modifies this, Objects()
      ensures Valid() && (Value(), ok) == old(Value()).ProcessBlocks(adds)
      ensures created == old(created) && currentChannel == old(currentChannel)
    {
      hide Channel.Valid, Channel.Value, TxIds, Ids, Builder.AddBlock, Objects;
      Lookup(currentChannel);
      var i := 0;
      ghost var k := currentChannel.channelBuilder.id;
      ghost var b := chans[k].builder;
      assert chans[k := chans[k].(builder := b)] == chans;
      while i < |blocks|
        invariant i <= |blocks| && Valid() && created == old(created) && currentChannel == old(currentChannel)
        invariant k < |chans| && blocks == old(blocks)
        invariant Value() == old(Value()).WithBuilder(k, chans[k].builder)
        invariant AddAll(cfg, b, blocks, adds, 0) == AddAll(cfg, chans[k].builder, blocks, adds, i)
      {
        ghost var before := chans[k].builder;
        var res := AddBlock(blocks[i], adds(i));
        assert (chans[k].builder, res) == before.AddBlock(cfg, blocks[i], adds(i));
        assert Value() == old(Value()).WithBuilder(k, chans[k].builder);
        Lookup(currentChannel);
        if res == AddFull {
          break;
        } else if res == AddFailed {
          assert AddAll(cfg, b, blocks, adds, 0) == (chans[k].builder, i, false);
          return false;
        }
        i := i + 1;
        if currentChannel.IsFull() {
          break;
        }
      }
      blocks := blocks[i..];
      return true;
    }
  }
}
