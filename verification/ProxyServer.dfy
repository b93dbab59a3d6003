/**
 How the proxy serves a batch of JSON-RPC calls: it answers some itself, groups
 the others so that no group has an id twice, looks each up in the cache, and
 forwards what is missing in small batches.
 */
module ProxyServers {
  import opened Wrappers
  import opened ProxyBackends

  const EMPTY_ARRAY := "[]"
  const ETH_ACCOUNTS := "eth_accounts"
  const SEND_RAW_TRANSACTION := "eth_sendRawTransaction"

  // What parsing and validating one element of the batch gives.
  datatype Raw = Unparsable | Invalid | Call(id: string, rpcMethod: string, params: string)

  datatype BatchElem = BatchElem(req: RpcReq, index: nat)

  // Requests with the same id go to groups of different numbers.
  datatype GroupKey = GroupKey(number: nat, backendGroup: string)

  // The answers of the world outside: rate limits per request, deadline and backends per forwarded batch, and what
  // the cache holds when the batch comes in.
  datatype World = World(
    limited: nat -> bool, senderError: nat -> Option<RpcError>, expired: nat -> bool, pool: nat -> seq<Backend>,
    stored: map<(string, string), string>)

  class RpcCache {
    const cacheable: (string, string) -> bool
    var entries: map<(string, string), string>

    constructor (cacheable: (string, string) -> bool)
    {
      this.cacheable := cacheable;
      entries := map[];
    }

    method Get(req: RpcReq) returns (res: Option<Res>)
      ensures res.Some? <==>
        (var key := (req.rpcMethod, req.params);
         cacheable(req.rpcMethod, req.params) && key in entries && entries[key] != "")
      ensures res.Some? ==> res.value == Res(req.id, Result(entries[(req.rpcMethod, req.params)]))
    {
      var key := (req.rpcMethod, req.params);
      if !cacheable(req.rpcMethod, req.params) || key !in entries || entries[key] == "" {
        return None;
      }
      res := Some(Res(req.id, Result(entries[key])));
    }

    method Put(req: RpcReq, value: Json)
      modifies this
      ensures entries == if cacheable(req.rpcMethod, req.params)
                         then old(entries)[(req.rpcMethod, req.params) := value] else old(entries)
    {
      if cacheable(req.rpcMethod, req.params) {
        entries := entries[(req.rpcMethod, req.params) := value];
      }
    }
  }

  function ElemIds(batch: seq<BatchElem>): (ids: seq<string>)
    ensures |ids| == |batch| && forall i :: 0 <= i < |batch| ==> ids[i] == batch[i].req.id
  {
    seq(|batch|, i requires 0 <= i < |batch| => batch[i].req.id)
  }

  // createBatchRequest
  function RequestsOf(batch: seq<BatchElem>): (reqs: seq<RpcReq>)
    ensures |reqs| == |batch| && forall i :: 0 <= i < |batch| ==> reqs[i] == batch[i].req
  {
    seq(|batch|, i requires 0 <= i < |batch| => batch[i].req)
  }

  class Server {
    const cache: RpcCache
    const groups: map<string, BackendGroup>
    const methodGroup: map<string, string>
    const overrideLims: set<string>
    const maxUpstreamBatchSize: nat

    constructor (
      cache: RpcCache, groups: map<string, BackendGroup>, methodGroup: map<string, string>, overrideLims: set<string>,
      maxUpstreamBatchSize: nat)
      requires maxUpstreamBatchSize > 0
      requires forall m :: m in methodGroup && methodGroup[m] != "" ==> methodGroup[m] in groups
      ensures Valid()
    {
      this.cache, this.groups, this.methodGroup, this.overrideLims := cache, groups, methodGroup, overrideLims;
      this.maxUpstreamBatchSize := maxUpstreamBatchSize;
    }

    predicate Valid() {
      maxUpstreamBatchSize > 0 && forall m :: m in methodGroup && methodGroup[m] != "" ==> methodGroup[m] in groups
    }

    // The backend group of a method, or the empty string.
    function GroupOf(rpcMethod: string): string {
      if rpcMethod in methodGroup then methodGroup[rpcMethod] else ""
    }

    /** What the proxy answers to element i without a backend, if anything. */
    function Immediate(raw: Raw, i: nat, world: World): Option<Res> {
      match raw
      case Unparsable => Some(Res("", Error(ParseError)))
      case Invalid => Some(Res("", Error(InvalidRequest)))
      case Call(id, rpcMethod, _) =>
        if rpcMethod == ETH_ACCOUNTS then Some(Res(id, Result(EMPTY_ARRAY)))
        else if GroupOf(rpcMethod) == "" then Some(Res(id, Error(MethodNotWhitelisted)))
        else if rpcMethod in overrideLims && world.limited(i) then Some(Res(id, Error(OverRateLimit)))
        else if rpcMethod == SEND_RAW_TRANSACTION && world.senderError(i).Some? then
          Some(Res(id, Error(world.senderError(i).value)))
        else None
    }

    // The parameters with which its group passes a call on.
    function Rewritten(rpcMethod: string, params: string): string {
      if GroupOf(rpcMethod) in groups then groups[GroupOf(rpcMethod)].Rewritten(rpcMethod, params) else params
    }

    // The answer its group has to a call without a backend, if any.
    function OwnAnswer(call: Raw): Option<Res>
      requires call.Call?
    {
      if GroupOf(call.rpcMethod) in groups
      then groups[GroupOf(call.rpcMethod)].Answer(call.id, call.rpcMethod, call.params) else None
    }

    // A call as it goes over the wire.
    function Passed(call: Raw): Sent
      requires call.Call?
    {
      Sent(call.id, call.rpcMethod, Rewritten(call.rpcMethod, call.params))
    }

    // This has to be routed to the backend group.
    predicate RoutedCall(raws: seq<Raw>, world: World, i: nat, backendGroup: string)
      requires i < |raws|
    {
      Immediate(raws[i], i, world).None? && raws[i].Call? && GroupOf(raws[i].rpcMethod) == backendGroup
    }

    /** A post to the backend group: calls of the batch that are routed to it and that it does not answer itself, no two
        of them with one id, and not too many. */
    ghost predicate IsPost(raws: seq<Raw>, world: World, backendGroup: string, sent: seq<Sent>) {
      && Distinct(SentIds(sent)) && |sent| <= maxUpstreamBatchSize
      && forall s :: s in sent ==> exists j :: 0 <= j < |raws| && Carries(raws, world, backendGroup, s, j)
    }

    // Call j, which the group does not answer itself, as it goes over the wire.
    ghost predicate Carries(raws: seq<Raw>, world: World, backendGroup: string, s: Sent, j: nat)
      requires j < |raws|
    {
      RoutedCall(raws, world, j, backendGroup) && OwnAnswer(raws[j]).None? && s == Passed(raws[j])
    }

    /** What such a post gives for a call: the error it ends with, the group's own answer, or a reply of the first
        backend at which the search ends, to a post that has the call in it. */
    ghost predicate Gives(pool: seq<Backend>, sent: seq<Sent>, call: Raw, res: Res)
      requires call.Call?
    {
      var own := OwnAnswer(call);
      && (own.None? ==> Passed(call) in sent)
      && match Outcome(pool, sent)
         case Some(error) => error in {NoBackends, MethodNotWhitelisted} && res.body == Error(error)
         case None => if own.Some? then res == own.value else res in pool[FirstEnd(pool, sent)].post(sent).res
    }

    // What forwarding may answer to a call: what some post gives that is made before time is up.
    ghost predicate Forwarded(raws: seq<Raw>, world: World, call: Raw, res: Res)
      requires call.Call?
    {
      res.id == call.id
      && exists t, sent ::
           !world.expired(t) && IsPost(raws, world, GroupOf(call.rpcMethod), sent)
           && Gives(world.pool(t), sent, call, res)
    }

    /** The value was in the cache from the start under this method and these parameters, or has been an answer to a
        call of the batch that is passed on with these parameters. */
    ghost predicate Known(raws: seq<Raw>, world: World, rpcMethod: string, params: string, value: string) {
      || ((rpcMethod, params) in world.stored && world.stored[(rpcMethod, params)] == value)
      || (value != "" && exists call ::
            call in raws && call.Call? && call.rpcMethod == rpcMethod && Rewritten(rpcMethod, call.params) == params
            && Forwarded(raws, world, call, Res(call.id, Result(value))))
    }

    // The cache has an answer to the call from the start.
    predicate Stored(world: World, call: Raw)
      requires call.Call?
    {
      var key := (call.rpcMethod, call.params);
      cache.cacheable(call.rpcMethod, call.params) && key in world.stored && world.stored[key] != ""
    }

    /** The cache holds only what is known, and still has all it had from the start. */
    ghost predicate Sound(raws: seq<Raw>, world: World, entries: map<(string, string), string>) {
      && (forall key :: key in entries ==> Known(raws, world, key.0, key.1, entries[key]))
      && (forall key :: key in world.stored && world.stored[key] != "" ==> key in entries && entries[key] != "")
    }

    // A value the cache knows for the call.
    ghost predicate Cached(raws: seq<Raw>, world: World, call: Raw, res: Res)
      requires call.Call?
    {
      res.id == call.id && res.body.Result? && Known(raws, world, call.rpcMethod, call.params, res.body.value)
    }

    /** The response answers element i: it is the proxy's own answer where one is due, a value the cache knows where it
        had one from the start, and else either of these: a value the cache knows, or what a post gives. */
    ghost predicate AnswersTo(raws: seq<Raw>, world: World, i: nat, res: Res)
      requires i < |raws|
    {
      var own := Immediate(raws[i], i, world);
      if own.Some? then res == own.value
      else raws[i].Call?
           && (Cached(raws, world, raws[i], res) || (!Stored(world, raws[i]) && Forwarded(raws, world, raws[i], res)))
    }

    /** Why a batch may fail as a whole: its time was up before some post, or a post failed on receipts. */
    ghost predicate FailsWith(raws: seq<Raw>, world: World, error: RpcError) {
      || (error == DeadlineExceeded && exists t :: world.expired(t))
      || (error in {ReceiptsCantBeBatched, ReceiptsInvalidTarget}
          && exists t, backendGroup, sent ::
               !world.expired(t) && IsPost(raws, world, backendGroup, sent)
               && Outcome(world.pool(t), sent) == Some(error))
    }

    // The cache has the call, as it came or as it is passed on, unless the latter is not to be kept.
    ghost predicate InCache(call: Raw, entries: map<(string, string), string>)
      requires call.Call?
    {
      var sent := Rewritten(call.rpcMethod, call.params);
      (call.rpcMethod, call.params) in entries
      || (cache.cacheable(call.rpcMethod, sent) ==> (call.rpcMethod, sent) in entries)
    }

    /** Whatever result a routed call has got is in the cache. */
    ghost predicate Remembered(raws: seq<Raw>, world: World, responses: seq<Option<Res>>,
                               entries: map<(string, string), string>)
      requires |raws| == |responses|
    {
      forall i :: 0 <= i < |raws| && Immediate(raws[i], i, world).None? && responses[i].Some? ==>
        responses[i].value.body.Result? ==> raws[i].Call? && InCache(raws[i], entries)
    }

    // The cache has an answer to the call at some time.
    ghost predicate MayHit(raws: seq<Raw>, world: World, i: nat)
      requires i < |raws|
    {
      && Immediate(raws[i], i, world).None? && raws[i].Call? && cache.cacheable(raws[i].rpcMethod, raws[i].params)
      && exists value: Json :: Known(raws, world, raws[i].rpcMethod, raws[i].params, value)
    }

    lemma RememberedAt(raws: seq<Raw>, world: World, now: seq<Option<Res>>, entries: map<(string, string), string>,
                       entries': map<(string, string), string>, i: nat, res: Res)
      requires |raws| == |now| && Remembered(raws, world, now, entries) && entries.Keys <= entries'.Keys && i < |raws|
      requires res.body.Result? ==> raws[i].Call? && InCache(raws[i], entries')
      ensures Remembered(raws, world, now[i := Some(res)], entries')
    {
      hide Immediate;
    }

    // Time never runs out, and every pool has a backend that answers and none that fails for good.
    ghost predicate Reliable(world: World) {
      (forall t :: !world.expired(t)) && forall t, sent :: OnePoolAnswers(world.pool(t), sent)
    }

    ghost predicate OnePoolAnswers(pool: seq<Backend>, sent: seq<Sent>) {
      && (exists b :: b in pool && b.Answers(sent))
      && forall b :: b in pool && b.post(sent).Fails? ==> !IsFinal(b.post(sent).error)
    }

    lemma ReliableOutcome(pool: seq<Backend>, sent: seq<Sent>)
      requires OnePoolAnswers(pool, sent)
      ensures Outcome(pool, sent).None?
    {
      var b :| b in pool && b.Answers(sent);
      assert Ends(b, sent);
    }

    lemma ReliableNeverFails(raws: seq<Raw>, world: World, error: RpcError)
      requires Reliable(world)
      ensures !FailsWith(raws, world, error)
    {
      hide IsPost, OnePoolAnswers;
      forall t, sent ensures Outcome(world.pool(t), sent).None? {
        ReliableOutcome(world.pool(t), sent);
      }
    }

    /** In a reliable world a call that is routed is answered from the cache, by its group, or by a backend, to a post
        that has the call in it. */
    lemma ReliableAnswers(raws: seq<Raw>, world: World, i: nat, res: Res)
      requires Reliable(world) && i < |raws| && Immediate(raws[i], i, world).None? && AnswersTo(raws, world, i, res)
      ensures raws[i].Call? && res.id == raws[i].id
      ensures Cached(raws, world, raws[i], res) || OwnAnswer(raws[i]) == Some(res)
           || exists t, sent, b :: b in world.pool(t) && IsPost(raws, world, GroupOf(raws[i].rpcMethod), sent)
                && Passed(raws[i]) in sent && b.Answers(sent) && res in b.post(sent).res
    {
      hide Immediate, IsPost, Known, OnePoolAnswers;
      var call := raws[i];
      forall t, sent ensures Outcome(world.pool(t), sent).None? {
        ReliableOutcome(world.pool(t), sent);
      }
      if !Cached(raws, world, call, res) && OwnAnswer(call) != Some(res) {
        var t, sent :| IsPost(raws, world, GroupOf(call.rpcMethod), sent) && Gives(world.pool(t), sent, call, res);
        var b := world.pool(t)[FirstEnd(world.pool(t), sent)];
        assert b in world.pool(t) && b.Answers(sent);
      }
    }

    // The element stands for one of the first n requests, one that has to be routed to this group.
    ghost predicate Routed(raws: seq<Raw>, world: World, n: nat, g: GroupKey, e: BatchElem)
      requires n <= |raws|
    {
      && e.index < n && RoutedCall(raws, world, e.index, g.backendGroup)
      && raws[e.index].id == e.req.id && raws[e.index].rpcMethod == e.req.rpcMethod
    }

    // The requests still have the parameters of the calls they stand for.
    ghost predicate AsReceived(raws: seq<Raw>, batch: seq<BatchElem>)
      reads RequestsOf(batch)
    {
      forall k :: 0 <= k < |batch| ==>
        batch[k].index < |raws| && raws[batch[k].index].Call? && batch[k].req.params == raws[batch[k].index].params
    }

    // No request is in two groups.
    ghost predicate Apart(batches: map<GroupKey, seq<BatchElem>>) {
      forall g, h, k, l :: g in batches && h in batches && 0 <= k < |batches[g]| && 0 <= l < |batches[h]| && g != h ==>
        batches[g][k].req != batches[h][l].req
    }

    lemma ApartGrows(batches: map<GroupKey, seq<BatchElem>>, g: GroupKey, e: BatchElem)
      requires Apart(batches)
      requires forall h, k :: h in batches && 0 <= k < |batches[h]| ==> batches[h][k].req != e.req
      ensures Apart(batches[g := (if g in batches then batches[g] else []) + [e]])
    {
    }

    lemma RoutedNow(raws: seq<Raw>, world: World, i: nat, g: GroupKey, e: BatchElem)
      requires i < |raws| && Immediate(raws[i], i, world).None? && e.index == i
      requires e.req.id == raws[i].id && e.req.rpcMethod == raws[i].rpcMethod
      requires g.backendGroup == GroupOf(raws[i].rpcMethod)
      ensures Routed(raws, world, i + 1, g, e)
    {
    }

    lemma RoutedTo(raws: seq<Raw>, world: World, g: GroupKey, e: BatchElem)
      requires Routed(raws, world, |raws|, g, e)
      ensures GroupOf(e.req.rpcMethod) == g.backendGroup
    {
    }

    ghost predicate GroupsOk(raws: seq<Raw>, world: World, n: nat, batches: map<GroupKey, seq<BatchElem>>)
      requires n <= |raws|
    {
      forall g :: g in batches ==>
        Distinct(ElemIds(batches[g])) && forall k :: 0 <= k < |batches[g]| ==> Routed(raws, world, n, g, batches[g][k])
    }

    // How often an id has been seen bounds the numbers of the groups it is in.
    ghost predicate CountsOk(batches: map<GroupKey, seq<BatchElem>>, ids: map<string, nat>) {
      forall g, k :: g in batches && 0 <= k < |batches[g]| ==>
        batches[g][k].req.id in ids && g.number <= ids[batches[g][k].req.id]
    }

    lemma NothingYet(raws: seq<Raw>, world: World, responses: seq<Option<Res>>,
                     batches: map<GroupKey, seq<BatchElem>>)
      requires |responses| == |raws| && (forall i :: 0 <= i < |raws| ==> responses[i] == None) && batches == map[]
      ensures CountsOk(batches, map[]) && Apart(batches) && GroupsOk(raws, world, 0, batches)
      ensures SlotsOk(raws, world, 0, responses, batches, batches.Keys)
    {
    }

    // Element i waits in one of these groups.
    ghost predicate Waits(batches: map<GroupKey, seq<BatchElem>>, keys: set<GroupKey>, i: nat) {
      exists g, k :: g in keys && g in batches && 0 <= k < |batches[g]| && batches[g][k].index == i
    }

    // Every slot below n is answered or waits in one of the groups.
    ghost predicate SlotsOk(raws: seq<Raw>, world: World, n: nat, responses: seq<Option<Res>>,
                            batches: map<GroupKey, seq<BatchElem>>, keys: set<GroupKey>)
      requires n <= |raws| == |responses|
    {
      && (forall i :: 0 <= i < |raws| && responses[i].Some? ==> AnswersTo(raws, world, i, responses[i].value))
      && (forall i :: 0 <= i < n && responses[i].None? ==> Waits(batches, keys, i))
    }

    lemma GroupsWiden(raws: seq<Raw>, world: World, n: nat, batches: map<GroupKey, seq<BatchElem>>)
      requires n < |raws| && GroupsOk(raws, world, n, batches)
      ensures GroupsOk(raws, world, n + 1, batches)
    {
    }

    lemma GroupGrows(raws: seq<Raw>, world: World, n: nat, batches: map<GroupKey, seq<BatchElem>>,
                     ids: map<string, nat>, g: GroupKey, e: BatchElem)
      requires n < |raws| && GroupsOk(raws, world, n, batches) && CountsOk(batches, ids)
      requires Routed(raws, world, n + 1, g, e)
      requires g.number == (if e.req.id in ids then ids[e.req.id] else 0) + 1
      ensures var batch := (if g in batches then batches[g] else []) + [e];
        GroupsOk(raws, world, n + 1, batches[g := batch]) && CountsOk(batches[g := batch], ids[e.req.id := g.number])
    {
      var front := if g in batches then batches[g] else [];
      forall k | 0 <= k < |front| ensures ElemIds(front)[k] != e.req.id {
        assert g in batches && front[k].req.id in ids && g.number <= ids[front[k].req.id];
      }
      assert ElemIds(front + [e]) == ElemIds(front) + [e.req.id];
    }

    lemma WaitingStays(batches: map<GroupKey, seq<BatchElem>>, g: GroupKey, e: BatchElem)
      ensures var batches' := batches[g := (if g in batches then batches[g] else []) + [e]];
        && (forall i :: Waits(batches, batches.Keys, i) ==> Waits(batches', batches'.Keys, i))
        && Waits(batches', batches'.Keys, e.index)
    {
      var batch := (if g in batches then batches[g] else []) + [e];
      var batches' := batches[g := batch];
      forall i | Waits(batches, batches.Keys, i) ensures Waits(batches', batches'.Keys, i) {
        var h, k :| h in batches.Keys && h in batches && 0 <= k < |batches[h]| && batches[h][k].index == i;
        assert h in batches'.Keys && h in batches' && 0 <= k < |batches'[h]| && batches'[h][k].index == i;
      }
      assert batches'[g][|batch| - 1].index == e.index;
    }

    lemma SlotAnswered(raws: seq<Raw>, world: World, n: nat, responses: seq<Option<Res>>,
                       batches: map<GroupKey, seq<BatchElem>>)
      requires n < |raws| == |responses| && SlotsOk(raws, world, n, responses, batches, batches.Keys)
      requires Immediate(raws[n], n, world).Some?
      ensures SlotsOk(raws, world, n + 1, responses[n := Immediate(raws[n], n, world)], batches, batches.Keys)
    {
      hide Waits, Cached, Forwarded;
    }

    lemma SlotWaits(raws: seq<Raw>, world: World, n: nat, responses: seq<Option<Res>>,
                    batches: map<GroupKey, seq<BatchElem>>, g: GroupKey, e: BatchElem)
      requires n < |raws| == |responses| && SlotsOk(raws, world, n, responses, batches, batches.Keys) && e.index == n
      ensures var batches' := batches[g := (if g in batches then batches[g] else []) + [e]];
        SlotsOk(raws, world, n + 1, responses, batches', batches'.Keys)
    {
      hide Waits, AnswersTo;
      WaitingStays(batches, g, e);
    }

    // The checks before a call is routed, in their order.
    method Screen(raw: Raw, i: nat, world: World) returns (own: Option<Res>)
      ensures own == Immediate(raw, i, world)
      ensures own.None? ==> raw.Call?
    {
      if raw.Unparsable? {
        return Some(Res("", Error(ParseError)));
      }
      if raw.Invalid? {
        return Some(Res("", Error(InvalidRequest)));
      }
      if raw.rpcMethod == ETH_ACCOUNTS {
        return Some(Res(raw.id, Result(EMPTY_ARRAY)));
      }
      var group := if raw.rpcMethod in methodGroup then methodGroup[raw.rpcMethod] else "";
      if group == "" {
        return Some(Res(raw.id, Error(MethodNotWhitelisted)));
      }
      if raw.rpcMethod in overrideLims && world.limited(i) {
        return Some(Res(raw.id, Error(OverRateLimit)));
      }
      if raw.rpcMethod == SEND_RAW_TRANSACTION && world.senderError(i).Some? {
        return Some(Res(raw.id, Error(world.senderError(i).value)));
      }
      return None;
    }

    /** What slot i of a batch holds, by the first of these that applies: a parse error without id for an unparsable
        element and an invalid request for one that is no request; the empty array for eth_accounts, whatever the
        tables say; an error for a method without a backend group, for one over its rate limit, and for a raw
        transaction over its sender's; and for every other call what the cache knows or a post gives. */
    lemma SlotMeaning(raws: seq<Raw>, world: World, i: nat, res: Res)
      requires i < |raws| && AnswersTo(raws, world, i, res)
      ensures raws[i].Unparsable? ==> res == Res("", Error(ParseError))
      ensures raws[i].Invalid? ==> res == Res("", Error(InvalidRequest))
      ensures raws[i].Call? ==>
        var id, m := raws[i].id, raws[i].rpcMethod;
        if m == "eth_accounts" then res == Res(id, Result("[]"))
        else if m !in methodGroup || methodGroup[m] == "" then res == Res(id, Error(MethodNotWhitelisted))
        else if m in overrideLims && world.limited(i) then res == Res(id, Error(OverRateLimit))
        else if m == "eth_sendRawTransaction" && world.senderError(i).Some? then
          res == Res(id, Error(world.senderError(i).value))
        else
          Cached(raws, world, raws[i], res) || (!Stored(world, raws[i]) && Forwarded(raws, world, raws[i], res))
    {
      hide Cached, Forwarded, Stored;
    }

    // The first loop: answer what needs no backend, group the rest.
    method Group(raws: seq<Raw>, world: World, responses: array<Option<Res>>)
      returns (batches: map<GroupKey, seq<BatchElem>>)
      requires Valid() && responses.Length == |raws| && forall i :: 0 <= i < |raws| ==> responses[i] == None
      modifies responses
      ensures GroupsOk(raws, world, |raws|, batches)
      ensures SlotsOk(raws, world, |raws|, responses[..], batches, batches.Keys)
      ensures forall g, k :: g in batches && 0 <= k < |batches[g]| ==> fresh(batches[g][k].req)
      ensures Apart(batches) && forall g :: g in batches ==> AsReceived(raws, batches[g])
      ensures forall i :: 0 <= i < |raws| ==> (responses[i].Some? <==> Immediate(raws[i], i, world).Some?)
    {
      hide Immediate, Cached, Forwarded, Known, Routed, Distinct, ElemIds, CountsOk, Apart, GroupsOk, Waits, SlotsOk;
      batches := map[];
      var ids: map<string, nat> := map[];
      NothingYet(raws, world, responses[..], batches);
      for i := 0 to |raws|
        invariant GroupsOk(raws, world, i, batches) && CountsOk(batches, ids)
        invariant SlotsOk(raws, world, i, responses[..], batches, batches.Keys)
        invariant forall j :: i <= j < |raws| ==> responses[j] == None
        invariant forall j :: 0 <= j < i ==> (responses[j].Some? <==> Immediate(raws[j], j, world).Some?)
        invariant forall g, k :: g in batches && 0 <= k < |batches[g]| ==> fresh(batches[g][k].req)
        invariant Apart(batches) && forall g :: g in batches ==> AsReceived(raws, batches[g])
      {
        var own := Screen(raws[i], i, world);
        GroupsWiden(raws, world, i, batches);
        label Now:
        if own.Some? {
          SlotAnswered(raws, world, i, responses[..], batches);
          responses[i] := own;
          assert responses[..] == old@Now(responses[..])[i := own];
        } else {
          var req := new RpcReq(raws[i].id, raws[i].rpcMethod, raws[i].params);
          var number := (if req.id in ids then ids[req.id] else 0) + 1;
          var g, e := GroupKey(number, GroupOf(req.rpcMethod)), BatchElem(req, i);
          RoutedNow(raws, world, i, g, e);
          GroupGrows(raws, world, i, batches, ids, g, e);
          ApartGrows(batches, g, e);
          SlotWaits(raws, world, i, responses[..], batches, g, e);
          ids := ids[req.id := number];
          batches := batches[g := (if g in batches then batches[g] else []) + [e]];
        }
      }
    }

    // The elements have been answered.
    ghost predicate Filled(responses: seq<Option<Res>>, batch: seq<BatchElem>) {
      forall k :: 0 <= k < |batch| ==> batch[k].index < |responses| && responses[batch[k].index].Some?
    }

    // Answers are only added, and fit.
    ghost predicate Progress(raws: seq<Raw>, world: World, before: seq<Option<Res>>, after: seq<Option<Res>>)
      requires |raws| == |before| == |after|
    {
      forall i :: 0 <= i < |raws| ==>
        (before[i].Some? ==> after[i].Some?) && (after[i].Some? ==> AnswersTo(raws, world, i, after[i].value))
    }

    ghost predicate BatchOk(raws: seq<Raw>, world: World, g: GroupKey, batch: seq<BatchElem>) {
      Distinct(ElemIds(batch)) && forall k :: 0 <= k < |batch| ==> Routed(raws, world, |raws|, g, batch[k])
    }

    // The cache had no answer to these from the start.
    ghost predicate Missing(raws: seq<Raw>, world: World, batch: seq<BatchElem>) {
      forall k :: 0 <= k < |batch| ==>
        batch[k].index < |raws| && raws[batch[k].index].Call? && !Stored(world, raws[batch[k].index])
    }

    // Answer what the cache knows; the rest is missing.
    method FromCache(raws: seq<Raw>, world: World, g: GroupKey, batch: seq<BatchElem>, responses: array<Option<Res>>)
      returns (misses: seq<BatchElem>, cached: bool)
      requires responses.Length == |raws| && BatchOk(raws, world, g, batch)
      requires Progress(raws, world, responses[..], responses[..]) && Sound(raws, world, cache.entries)
      requires AsReceived(raws, batch) && Remembered(raws, world, responses[..], cache.entries)
      modifies responses
      ensures Remembered(raws, world, responses[..], cache.entries)
      ensures if cached then exists i :: 0 <= i < |raws| && MayHit(raws, world, i)
              else forall e :: e in batch ==> e in misses
      ensures BatchOk(raws, world, g, misses) && Progress(raws, world, old(responses[..]), responses[..])
      ensures (forall e :: e in misses ==> e in batch) && Missing(raws, world, misses)
      ensures forall e :: e in batch ==> e in misses || responses[e.index].Some?
    {
      hide AnswersTo, Cached, Stored, Sound, Progress, Distinct, ElemIds, Remembered, MayHit;
      misses, cached := [], false;
      NoMisses(raws, world, g);
      for k := 0 to |batch|
        invariant BatchOk(raws, world, g, misses) && Progress(raws, world, old(responses[..]), responses[..])
        invariant (forall e :: e in misses ==> e in batch[..k]) && Missing(raws, world, misses)
        invariant forall j :: 0 <= j < k ==> batch[j] in misses || responses[batch[j].index].Some?
        invariant Remembered(raws, world, responses[..], cache.entries)
        invariant if cached then exists i :: 0 <= i < |raws| && MayHit(raws, world, i)
                  else forall j :: 0 <= j < k ==> batch[j] in misses
      {
        var e := batch[k];
        var hit := cache.Get(e.req);
        assert Routed(raws, world, |raws|, g, e);
        CacheKnows(raws, world, e, hit);
        if hit.Some? {
          ProgressAt(raws, world, old(responses[..]), responses[..], e.index, hit.value);
          RememberedAt(raws, world, responses[..], cache.entries, cache.entries, e.index, hit.value);
          ghost var now := responses[..];
          responses[e.index] := hit;
          assert responses[..] == now[e.index := hit];
          cached := true;
        } else {
          MissGrows(raws, world, g, batch, misses, k);
          misses := misses + [e];
        }
      }
    }

    // A hit answers the call of the element; after a miss there was nothing stored for it.
    lemma CacheKnows(raws: seq<Raw>, world: World, e: BatchElem, hit: Option<Res>)
      requires Sound(raws, world, cache.entries) && e.index < |raws| && Immediate(raws[e.index], e.index, world).None?
      requires raws[e.index].Call? && raws[e.index].id == e.req.id && raws[e.index].rpcMethod == e.req.rpcMethod
      requires e.req.params == raws[e.index].params
      requires var key := (e.req.rpcMethod, e.req.params);
        if cache.cacheable(e.req.rpcMethod, e.req.params) && key in cache.entries && cache.entries[key] != ""
        then hit == Some(Res(e.req.id, Result(cache.entries[key]))) else hit.None?
      ensures if hit.Some? then AnswersTo(raws, world, e.index, hit.value) else !Stored(world, raws[e.index])
      ensures hit.Some? ==> MayHit(raws, world, e.index) && InCache(raws[e.index], cache.entries)
    {
      hide Known, Immediate;
    }

    // One more slot is filled.
    lemma ProgressAt(raws: seq<Raw>, world: World, before: seq<Option<Res>>, now: seq<Option<Res>>, i: nat, res: Res)
      requires |raws| == |before| == |now| && Progress(raws, world, before, now)
      requires i < |raws| && AnswersTo(raws, world, i, res)
      ensures Progress(raws, world, before, now[i := Some(res)])
    {
      hide AnswersTo;
    }

    lemma NoMisses(raws: seq<Raw>, world: World, g: GroupKey)
      ensures BatchOk(raws, world, g, [])
    {
    }

    lemma MissGrows(raws: seq<Raw>, world: World, g: GroupKey, batch: seq<BatchElem>, misses: seq<BatchElem>, k: nat)
      requires BatchOk(raws, world, g, batch) && BatchOk(raws, world, g, misses) && k < |batch|
      requires forall e :: e in misses ==> e in batch[..k]
      ensures BatchOk(raws, world, g, misses + [batch[k]])
    {
      forall j | 0 <= j < |misses| ensures misses[j].req.id != batch[k].req.id {
        assert misses[j] in batch[..k];
        var i :| 0 <= i < k && batch[..k][i] == misses[j];
        assert ElemIds(batch)[i] != ElemIds(batch)[k];
      }
      assert ElemIds(misses + [batch[k]]) == ElemIds(misses) + [batch[k].req.id];
    }

    // One small batch.
    method ForwardElems(raws: seq<Raw>, world: World, g: GroupKey, elems: seq<BatchElem>, t: nat,
                        responses: array<Option<Res>>)
      returns (err: Option<RpcError>)
      requires responses.Length == |raws| && BatchOk(raws, world, g, elems) && g.backendGroup in groups
      requires (forall b :: b in world.pool(t) ==> b.Honest()) && AsReceived(raws, elems) && Missing(raws, world, elems)
      requires 0 < |elems| <= maxUpstreamBatchSize && !world.expired(t)
      requires Progress(raws, world, responses[..], responses[..]) && Sound(raws, world, cache.entries)
      requires Remembered(raws, world, responses[..], cache.entries)
      modifies responses, cache, RequestsOf(elems)
      ensures Remembered(raws, world, responses[..], cache.entries)
      ensures Progress(raws, world, old(responses[..]), responses[..]) && Sound(raws, world, cache.entries)
      ensures if err.None? then Filled(responses[..], elems) else FailsWith(raws, world, err.value)
    {
      hide AnswersTo, Progress, Filled, Distinct, Forwarded, FailsWith, Outcome, FirstEnd, Gives, IsPost, Remembered;
      assert ReqIds(RequestsOf(elems)) == ElemIds(elems);
      ghost var reqs, group, pool := RequestsOf(elems), groups[g.backendGroup], world.pool(t);
      ghost var plan := group.PlanFor(reqs);
      label Before:
      var res, fault, k := groups[g.backendGroup].Forward(RequestsOf(elems), world.pool(t));
      ghost var sent := group.Posted(reqs, plan);
      PostOfElems(raws, world, g, elems, plan);
      if fault.Some? {
        if fault.value in {ReceiptsCantBeBatched, ReceiptsInvalidTarget} {
          PostFails(raws, world, g, t, sent);
          return fault;
        }
        res := seq(|elems|, i requires 0 <= i < |elems| => Res(elems[i].req.id, Error(fault.value)));
      }
      forall i | 0 <= i < |elems| ensures Answered(raws, world, elems[i], res[i]) {
        var e, own := elems[i], plan[i];
        assert Routed(raws, world, |raws|, g, e) && e.req == reqs[i] && ReqIds(reqs)[i] == e.req.id;
        assert old@Before(e.req.params) == raws[e.index].params;
        if own.None? {
          group.PostedHas(reqs, plan, i);
        }
        ElemAnswered(raws, world, g, e, own, t, sent, fault, res[i]);
      }
      ProgressStays(raws, world, responses[..]);
      Write(raws, world, g, elems, res, responses);
      err := None;
    }

    // What a post gives for one element of it.
    lemma ElemAnswered(raws: seq<Raw>, world: World, g: GroupKey, e: BatchElem, own: Option<Res>, t: nat,
                       sent: seq<Sent>, fault: Option<RpcError>, res: Res)
      requires Routed(raws, world, |raws|, g, e) && Rewrote(raws, e) && !Stored(world, raws[e.index])
      requires own == OwnAnswer(raws[e.index]) && (own.None? ==> Sent(e.req.id, e.req.rpcMethod, e.req.params) in sent)
      requires IsPost(raws, world, g.backendGroup, sent) && fault == Outcome(world.pool(t), sent) && res.id == e.req.id
      requires !world.expired(t)
      requires if fault.Some?
               then fault.value in {NoBackends, MethodNotWhitelisted} && res.body == Error(fault.value)
               else
                 var pool, k := world.pool(t), FirstEnd(world.pool(t), sent);
                 k < |pool| && if own.Some? then res == own.value
                               else pool[k].Answers(sent) && res in pool[k].post(sent).res
      ensures Answered(raws, world, e, res)
    {
      hide IsPost, Outcome, FirstEnd, Immediate, Stored, Rewritten, OwnAnswer;
      assert Gives(world.pool(t), sent, raws[e.index], res);
    }

    // What goes over the wire for a small batch whose requests have been rewritten.
    lemma PostOfElems(raws: seq<Raw>, world: World, g: GroupKey, elems: seq<BatchElem>, plan: Plan)
      requires BatchOk(raws, world, g, elems) && |elems| == |plan| && |elems| <= maxUpstreamBatchSize
      requires g.backendGroup in groups
      requires forall i :: 0 <= i < |elems| ==> Rewrote(raws, elems[i]) && plan[i] == OwnAnswer(raws[elems[i].index])
      ensures IsPost(raws, world, g.backendGroup, groups[g.backendGroup].Posted(RequestsOf(elems), plan))
    {
      hide Distinct, Rewritten, OwnAnswer, Immediate;
      var reqs, group := RequestsOf(elems), groups[g.backendGroup];
      assert ReqIds(reqs) == ElemIds(elems);
      group.PostedDistinct(reqs, plan);
      forall s | s in group.Posted(reqs, plan)
        ensures exists j :: 0 <= j < |raws| && Carries(raws, world, g.backendGroup, s, j)
      {
        group.PostedFrom(reqs, plan, s);
        var i :| 0 <= i < |reqs| && plan[i].None? && s == Sent(reqs[i].id, reqs[i].rpcMethod, reqs[i].params);
        assert Routed(raws, world, |raws|, g, elems[i]);
        assert Carries(raws, world, g.backendGroup, s, elems[i].index);
      }
    }

    lemma PostFails(raws: seq<Raw>, world: World, g: GroupKey, t: nat, sent: seq<Sent>)
      requires IsPost(raws, world, g.backendGroup, sent) && Outcome(world.pool(t), sent).Some? && !world.expired(t)
      requires Outcome(world.pool(t), sent).value in {ReceiptsCantBeBatched, ReceiptsInvalidTarget}
      ensures FailsWith(raws, world, Outcome(world.pool(t), sent).value)
    {
    }

    lemma ProgressStays(raws: seq<Raw>, world: World, now: seq<Option<Res>>)
      requires |raws| == |now|
      ensures (forall i :: 0 <= i < |raws| && now[i].Some? ==> AnswersTo(raws, world, i, now[i].value)) <==>
              Progress(raws, world, now, now)
    {
      hide AnswersTo;
    }

    lemma ProgressJoins(raws: seq<Raw>, world: World, a: seq<Option<Res>>, b: seq<Option<Res>>, c: seq<Option<Res>>)
      requires |raws| == |a| == |b| == |c| && Progress(raws, world, a, b) && Progress(raws, world, b, c)
      ensures Progress(raws, world, a, c) && Progress(raws, world, c, c) && Progress(raws, world, b, b)
    {
      hide AnswersTo;
    }

    // The request of the element has the parameters with which its call is passed on.
    ghost predicate Rewrote(raws: seq<Raw>, e: BatchElem)
      reads e.req`params
    {
      e.index < |raws| && raws[e.index].Call? && e.req.params == Rewritten(e.req.rpcMethod, raws[e.index].params)
    }

    // The response was forwarded for the call of the element.
    ghost predicate Answered(raws: seq<Raw>, world: World, e: BatchElem, res: Res)
      reads e.req`params
    {
      Rewrote(raws, e) && !Stored(world, raws[e.index]) && Forwarded(raws, world, raws[e.index], res)
    }

    // Put the responses into their slots, and the results into the cache.
    method Write(raws: seq<Raw>, world: World, g: GroupKey, elems: seq<BatchElem>, res: seq<Res>,
                 responses: array<Option<Res>>)
      requires responses.Length == |raws| && BatchOk(raws, world, g, elems) && |res| == |elems|
      requires forall k :: 0 <= k < |elems| ==> Answered(raws, world, elems[k], res[k])
      requires Progress(raws, world, responses[..], responses[..]) && Sound(raws, world, cache.entries)
      requires Remembered(raws, world, responses[..], cache.entries)
      modifies responses, cache
      ensures Progress(raws, world, old(responses[..]), responses[..]) && Sound(raws, world, cache.entries)
      ensures Filled(responses[..], elems) && Remembered(raws, world, responses[..], cache.entries)
    {
      hide AnswersTo, Progress, Filled, Sound, Forwarded, Known, BatchOk, Stored, Rewritten, InCache, Remembered;
      FilledNothing(responses[..]);
      for k := 0 to |elems|
        invariant Progress(raws, world, old(responses[..]), responses[..])
        invariant Filled(responses[..], elems[..k]) && Sound(raws, world, cache.entries)
        invariant forall j :: 0 <= j < |elems| ==> Answered(raws, world, elems[j], res[j])
        invariant Remembered(raws, world, responses[..], cache.entries)
      {
        var e := elems[k];
        AnsweredFits(raws, world, g, elems, k, res[k]);
        ProgressAt(raws, world, old(responses[..]), responses[..], e.index, res[k]);
        FilledAt(responses[..], elems, k, res[k]);
        ghost var now, entries := responses[..], cache.entries;
        responses[e.index] := Some(res[k]);
        assert responses[..] == now[e.index := Some(res[k])];
        if res[k].body.Result? {
          PutKeepsSound(raws, world, g, elems, k, res[k], cache.entries);
          cache.Put(e.req, res[k].body.value);
          PutIsRemembered(raws, world, g, elems, k, res[k], cache.entries);
        }
        RememberedAt(raws, world, now, entries, cache.entries, e.index, res[k]);
      }
      assert elems[..|elems|] == elems;
    }

    lemma AnsweredFits(raws: seq<Raw>, world: World, g: GroupKey, elems: seq<BatchElem>, k: nat, res: Res)
      requires BatchOk(raws, world, g, elems) && k < |elems| && Answered(raws, world, elems[k], res)
      ensures elems[k].index < |raws| && AnswersTo(raws, world, elems[k].index, res)
    {
      hide Forwarded, Stored, Rewritten, Cached;
      assert Routed(raws, world, |raws|, g, elems[k]);
    }

    lemma PutKeepsSound(raws: seq<Raw>, world: World, g: GroupKey, elems: seq<BatchElem>, k: nat, res: Res,
                        entries: map<(string, string), string>)
      requires BatchOk(raws, world, g, elems) && k < |elems| && Answered(raws, world, elems[k], res)
      requires Sound(raws, world, entries) && res.body.Result?
      ensures var req := elems[k].req;
        Sound(raws, world, entries[(req.rpcMethod, req.params) := res.body.value])
    {
      hide Forwarded, Stored, Immediate;
      var e := elems[k];
      assert Routed(raws, world, |raws|, g, e) && raws[e.index] in raws;
      assert res == Res(raws[e.index].id, Result(res.body.value)) by { ForwardedId(raws, world, raws[e.index], res); }
      assert Known(raws, world, e.req.rpcMethod, e.req.params, res.body.value);
    }

    lemma PutIsRemembered(raws: seq<Raw>, world: World, g: GroupKey, elems: seq<BatchElem>, k: nat, res: Res,
                          entries: map<(string, string), string>)
      requires BatchOk(raws, world, g, elems) && k < |elems| && Answered(raws, world, elems[k], res)
      requires var req := elems[k].req;
        cache.cacheable(req.rpcMethod, req.params) ==> (req.rpcMethod, req.params) in entries
      ensures raws[elems[k].index].Call? && InCache(raws[elems[k].index], entries)
    {
      hide Forwarded, Stored, Rewritten, Immediate;
      assert Routed(raws, world, |raws|, g, elems[k]);
    }

    lemma ForwardedId(raws: seq<Raw>, world: World, call: Raw, res: Res)
      requires call.Call? && Forwarded(raws, world, call, res)
      ensures res.id == call.id
    {
    }

    lemma FilledAt(now: seq<Option<Res>>, elems: seq<BatchElem>, k: nat, res: Res)
      requires k < |elems| && elems[k].index < |now| && Filled(now, elems[..k])
      ensures Filled(now[elems[k].index := Some(res)], elems[..k + 1])
    {
      forall j | 0 <= j < k ensures elems[j].index < |now| && now[elems[j].index].Some? {
        assert elems[..k][j] == elems[j];
      }
    }

    lemma SliceOk(raws: seq<Raw>, world: World, g: GroupKey, batch: seq<BatchElem>, start: nat, end: nat)
      requires BatchOk(raws, world, g, batch) && Missing(raws, world, batch) && start <= end <= |batch|
      ensures BatchOk(raws, world, g, batch[start..end]) && Missing(raws, world, batch[start..end])
    {
      assert ElemIds(batch[start..end]) == ElemIds(batch)[start..end];
    }

    lemma AsReceivedSplits(raws: seq<Raw>, batch: seq<BatchElem>, start: nat, end: nat)
      requires start <= end <= |batch| && AsReceived(raws, batch[start..])
      ensures AsReceived(raws, batch[start..end]) && AsReceived(raws, batch[end..])
    {
      forall k | start <= k < |batch|
        ensures batch[k].index < |raws| && raws[batch[k].index].Call?
        ensures batch[k].req.params == raws[batch[k].index].params
      {
        assert batch[start..][k - start] == batch[k];
      }
    }

    lemma SlicesApart(raws: seq<Raw>, world: World, g: GroupKey, batch: seq<BatchElem>, start: nat, end: nat)
      requires BatchOk(raws, world, g, batch) && start <= end <= |batch|
      ensures forall q :: q in RequestsOf(batch[start..end]) ==> q !in RequestsOf(batch[end..])
    {
      forall i, j | start <= i < end <= j < |batch| ensures batch[i].req != batch[j].req {
        assert ElemIds(batch)[i] != ElemIds(batch)[j];
      }
    }

    twostate lemma StillReceived(new raws: seq<Raw>, rest: seq<BatchElem>)
      requires old(AsReceived(raws, rest)) && forall q :: q in RequestsOf(rest) ==> unchanged(q)
      ensures AsReceived(raws, rest)
    {
      forall k | 0 <= k < |rest| ensures old(rest[k].req.params) == rest[k].req.params {
        var q := RequestsOf(rest)[k];
        assert q in RequestsOf(rest) && q == rest[k].req && unchanged(q);
      }
    }

    // The small batches of one group.
    method ForwardMisses(raws: seq<Raw>, world: World, g: GroupKey, misses: seq<BatchElem>, tick: nat,
                         responses: array<Option<Res>>)
      returns (err: Option<RpcError>, tick': nat)
      requires Valid() && responses.Length == |raws| && BatchOk(raws, world, g, misses) && g.backendGroup in groups
      requires AsReceived(raws, misses) && Missing(raws, world, misses)
      requires forall t, b :: b in world.pool(t) ==> b.Honest()
      requires Progress(raws, world, responses[..], responses[..]) && Sound(raws, world, cache.entries)
      requires Remembered(raws, world, responses[..], cache.entries)
      modifies responses, cache, RequestsOf(misses)
      ensures Remembered(raws, world, responses[..], cache.entries)
      ensures Progress(raws, world, old(responses[..]), responses[..]) && Sound(raws, world, cache.entries)
      ensures if err.None? then Filled(responses[..], misses) else FailsWith(raws, world, err.value)
    {
      hide AnswersTo, Routed, Progress, Filled, BatchOk, AsReceived, Sound, Missing, FailsWith, Immediate, Remembered;
      tick' := tick;
      FilledNothing(responses[..]);
      var size := maxUpstreamBatchSize;
      var numBatches := (|misses| + size - 1) / size;
      Ceiling(|misses|, size);
      for i := 0 to numBatches
        invariant Progress(raws, world, old(responses[..]), responses[..])
        invariant Progress(raws, world, responses[..], responses[..]) && Sound(raws, world, cache.entries)
        invariant Remembered(raws, world, responses[..], cache.entries)
        invariant Filled(responses[..], misses[..Min(i * size, |misses|)])
        invariant AsReceived(raws, misses[Min(i * size, |misses|)..])
      {
        if world.expired(tick') {
          Expires(raws, world, tick');
          return Some(DeadlineExceeded), tick';
        }
        Chunk(i, numBatches, |misses|, size);
        var start := i * size;
        var end := Min(start + size, |misses|);
        SliceOk(raws, world, g, misses, start, end);
        AsReceivedSplits(raws, misses, start, end);
        SlicesApart(raws, world, g, misses, start, end);
        assert forall e :: e in misses[start..end] ==> e in misses;
        label Before:
        err := ForwardElems(raws, world, g, misses[start..end], tick', responses);
        ProgressJoins(raws, world, old(responses[..]), old@Before(responses[..]), responses[..]);
        StillReceived@Before(raws, misses[end..]);
        if err.Some? {
          return;
        }
        FilledJoins(raws, world, old@Before(responses[..]), responses[..], misses, start, end);
        tick' := tick' + 1;
      }
      assert misses[..|misses|] == misses;
      err := None;
    }

    lemma Expires(raws: seq<Raw>, world: World, t: nat)
      requires world.expired(t)
      ensures FailsWith(raws, world, DeadlineExceeded)
    {
    }

    lemma FilledNothing(responses: seq<Option<Res>>)
      ensures Filled(responses, [])
    {
    }

    lemma FilledJoins(raws: seq<Raw>, world: World, before: seq<Option<Res>>, after: seq<Option<Res>>,
                      misses: seq<BatchElem>, start: nat, end: nat)
      requires |raws| == |before| == |after| && start <= end <= |misses|
      requires Filled(before, misses[..start]) && Progress(raws, world, before, after)
      requires Filled(after, misses[start..end])
      ensures Filled(after, misses[..end])
    {
      forall k | 0 <= k < end ensures misses[k].index < |after| && after[misses[k].index].Some? {
        if k < start {
          assert misses[..start][k] == misses[k];
        } else {
          assert misses[start..end][k - start] == misses[k];
        }
      }
    }

    lemma MissesToo(raws: seq<Raw>, batch: seq<BatchElem>, misses: seq<BatchElem>)
      requires (forall e :: e in misses ==> e in batch) && AsReceived(raws, batch)
      ensures AsReceived(raws, misses)
      ensures forall q :: q in RequestsOf(misses) ==> q in RequestsOf(batch)
    {
      forall k | 0 <= k < |misses| ensures misses[k] in batch {
        assert misses[k] in misses;
      }
      forall q | q in RequestsOf(misses) ensures q in RequestsOf(batch) {
        var i :| 0 <= i < |misses| && misses[i].req == q;
        assert misses[i] in misses;
        var j :| 0 <= j < |batch| && batch[j] == misses[i];
        assert RequestsOf(batch)[j] == q;
      }
    }

    lemma AllFilled(raws: seq<Raw>, world: World, g: GroupKey, batch: seq<BatchElem>, misses: seq<BatchElem>,
                    hit: seq<Option<Res>>, after: seq<Option<Res>>)
      requires |raws| == |hit| == |after| && BatchOk(raws, world, g, batch) && Progress(raws, world, hit, after)
      requires forall e :: e in batch ==> e in misses || (e.index < |raws| && hit[e.index].Some?)
      requires Filled(after, misses)
      ensures Filled(after, batch)
    {
      hide AnswersTo;
      forall k | 0 <= k < |batch| ensures batch[k].index < |after| && after[batch[k].index].Some? {
        assert batch[k] in batch;
      }
    }

    lemma AllMissing(raws: seq<Raw>, world: World, batch: seq<BatchElem>, misses: seq<BatchElem>)
      requires (forall e :: e in batch ==> e in misses) && Missing(raws, world, misses)
      ensures Missing(raws, world, batch)
    {
      hide Stored;
      assert forall k :: 0 <= k < |batch| ==> batch[k] in misses;
    }

    // One group: what the cache knows, then the rest.
    method ServeGroup(raws: seq<Raw>, world: World, g: GroupKey, batch: seq<BatchElem>, tick: nat,
                      responses: array<Option<Res>>)
      returns (hit: bool, err: Option<RpcError>, tick': nat)
      requires Valid() && responses.Length == |raws| && BatchOk(raws, world, g, batch) && AsReceived(raws, batch)
      requires forall t, b :: b in world.pool(t) ==> b.Honest()
      requires Progress(raws, world, responses[..], responses[..]) && Sound(raws, world, cache.entries)
      requires Remembered(raws, world, responses[..], cache.entries)
      modifies responses, cache, RequestsOf(batch)
      ensures Remembered(raws, world, responses[..], cache.entries)
      ensures if hit then exists i :: 0 <= i < |raws| && MayHit(raws, world, i) else Missing(raws, world, batch)
      ensures Progress(raws, world, old(responses[..]), responses[..]) && Sound(raws, world, cache.entries)
      ensures if err.None? then Filled(responses[..], batch) else FailsWith(raws, world, err.value)
    {
      hide AnswersTo, Distinct, ElemIds, RequestsOf, Progress, Filled, Sound, Known, Remembered, MayHit, Stored;
      var misses;
      misses, hit := FromCache(raws, world, g, batch, responses);
      if !hit {
        AllMissing(raws, world, batch, misses);
      }
      MissesToo(raws, batch, misses);
      label Cached:
      ProgressJoins(raws, world, old(responses[..]), old(responses[..]), responses[..]);
      FilledNothing(responses[..]);
      err, tick' := None, tick;
      if misses != [] {
        assert Routed(raws, world, |raws|, g, misses[0]);
        err, tick' := ForwardMisses(raws, world, g, misses, tick, responses);
      }
      ProgressJoins(raws, world, old(responses[..]), old@Cached(responses[..]), responses[..]);
      if err.None? {
        AllFilled(raws, world, g, batch, misses, old@Cached(responses[..]), responses[..]);
      }
    }

    /** Serve a batch.  It fails as a whole only for one of the reasons of FailsWith; else every slot is filled with
        what AnswersTo allows, in the order of the requests.  Groups are taken in any order. */
    method HandleBatchRpc(raws: seq<Raw>, world: World)
      returns (responses: array<Option<Res>>, cached: bool, err: Option<RpcError>)
      requires Valid() && (forall t, b :: b in world.pool(t) ==> b.Honest()) && world.stored == cache.entries
      modifies cache
      ensures responses.Length == |raws|
      ensures err.None? ==>
        forall i :: 0 <= i < |raws| ==> responses[i].Some? && AnswersTo(raws, world, i, responses[i].value)
      ensures err.Some? ==> FailsWith(raws, world, err.value) && !cached
      ensures Reliable(world) ==> err.None?
      ensures err.None? ==> Remembered(raws, world, responses[..], cache.entries)
      ensures cached ==> exists i :: 0 <= i < |raws| && MayHit(raws, world, i)
      ensures err.None? && !cached ==> NothingStored(raws, world)
    {
      hide AnswersTo, FailsWith, Reliable, Distinct, ElemIds, RequestsOf, Progress, Filled, Sound, Known, Routed, Waits,
           Immediate, Remembered, MayHit, Missing, NothingStored;
      responses := new Option<Res>[|raws|](_ => None);
      cached, err := false, None;
      var batches := Group(raws, world, responses);
      var keys, tick := batches.Keys, 0;
      StoredIsSound(raws, world);
      NothingForwarded(raws, world, responses[..]);
      ghost var first := responses[..];
      while keys != {}
        invariant keys <= batches.Keys && fresh(responses) && responses.Length == |raws|
        invariant SlotsOk(raws, world, |raws|, responses[..], batches, keys)
        invariant err == None && Sound(raws, world, cache.entries)
        invariant Remembered(raws, world, responses[..], cache.entries)
        invariant if cached then exists i :: 0 <= i < |raws| && MayHit(raws, world, i)
                  else forall h :: h in batches.Keys - keys ==> Missing(raws, world, batches[h])
        invariant forall h :: h in keys ==> AsReceived(raws, batches[h])
        decreases |keys|
      {
        var g :| g in keys;
        ProgressStays(raws, world, responses[..]);
        label Start:
        var hit;
        assert forall k :: 0 <= k < |batches[g]| ==> fresh(batches[g][k].req);
        assert forall q :: q in RequestsOf(batches[g]) ==> fresh(q);
        hit, err, tick := ServeGroup(raws, world, g, batches[g], tick, responses);
        cached := cached || hit;
        if err.Some? {
          if Reliable(world) {
            ReliableNeverFails(raws, world, err.value);
          }
          cached := false;
          return;
        }
        GroupDone(raws, world, old@Start(responses[..]), responses[..], batches, keys, g);
        keys := keys - {g};
      }
      NobodyWaits(batches);
      if !cached {
        NoneStored(raws, world, first, batches);
      }
    }

    // The cache had nothing from the start for any call that is routed.
    ghost predicate NothingStored(raws: seq<Raw>, world: World) {
      forall i :: 0 <= i < |raws| && Immediate(raws[i], i, world).None? && raws[i].Call? ==> !Stored(world, raws[i])
    }

    lemma NoneStored(raws: seq<Raw>, world: World, first: seq<Option<Res>>, batches: map<GroupKey, seq<BatchElem>>)
      requires |raws| == |first| && SlotsOk(raws, world, |raws|, first, batches, batches.Keys)
      requires forall i :: 0 <= i < |raws| ==> (first[i].Some? <==> Immediate(raws[i], i, world).Some?)
      requires forall h :: h in batches.Keys ==> Missing(raws, world, batches[h])
      ensures NothingStored(raws, world)
    {
      hide AnswersTo, Immediate, Stored;
    }

    lemma NothingForwarded(raws: seq<Raw>, world: World, first: seq<Option<Res>>)
      requires |raws| == |first|
      requires forall i :: 0 <= i < |raws| ==> (first[i].Some? <==> Immediate(raws[i], i, world).Some?)
      ensures forall entries :: Remembered(raws, world, first, entries)
    {
      hide Immediate;
    }

    lemma NobodyWaits(batches: map<GroupKey, seq<BatchElem>>)
      ensures forall i :: !Waits(batches, {}, i)
    {
    }

    lemma StoredIsSound(raws: seq<Raw>, world: World)
      requires world.stored == cache.entries
      ensures Sound(raws, world, cache.entries)
    {
      forall key | key in cache.entries ensures Known(raws, world, key.0, key.1, cache.entries[key]) {
        assert (key.0, key.1) == key;
      }
    }

    // After a group has been served, whatever is not answered waits in another one.
    lemma GroupDone(raws: seq<Raw>, world: World, before: seq<Option<Res>>, after: seq<Option<Res>>,
                    batches: map<GroupKey, seq<BatchElem>>, keys: set<GroupKey>, g: GroupKey)
      requires |raws| == |before| == |after| && g in keys && keys <= batches.Keys
      requires SlotsOk(raws, world, |raws|, before, batches, keys)
      requires Progress(raws, world, before, after) && Filled(after, batches[g])
      ensures SlotsOk(raws, world, |raws|, after, batches, keys - {g})
    {
      hide AnswersTo;
      forall i | 0 <= i < |raws| && after[i].None? ensures Waits(batches, keys - {g}, i) {
        assert before[i].None?;
        var h, k :| h in keys && h in batches && 0 <= k < |batches[h]| && batches[h][k].index == i;
        assert h != g;
      }
    }
  }

  lemma Ceiling(n: nat, size: nat)
    requires size > 0
    ensures var c := (n + size - 1) / size; n <= c * size && (n > 0 ==> (c - 1) * size < n)
  {
    var c := (n + size - 1) / size;
    assert n + size - 1 == c * size + (n + size - 1) % size;
  }

  lemma Chunk(i: nat, c: nat, n: nat, size: nat)
    requires size > 0 && i < c == (n + size - 1) / size
    ensures i * size < n && (i + 1) * size == i * size + size
  {
    Ceiling(n, size);
    assert i * size <= (c - 1) * size;
  }
}
