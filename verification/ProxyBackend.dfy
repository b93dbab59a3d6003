/**
 How the proxy forwards a batch to a group of backends: requests it can answer
 itself are taken out, the rest goes to the first backend that answers, the
 replies are put into the order of the requests, and its own answers are put
 back in between.
 */
module ProxyBackends {
  import opened Wrappers

  datatype RpcError =
    | ParseError | InvalidRequest | MethodNotWhitelisted | OverRateLimit | SenderLimit | BlockOutOfRange | InvalidParams
    | BackendOffline | BackendOverCapacity | BackendBadReply | UnexpectedJsonRpc | NoBackends
    | ReceiptsCantBeBatched | ReceiptsInvalidTarget | DeadlineExceeded | OtherError(code: int)

  // A value in JSON.
  type Json = s: string | s != "" witness "null"

  // Null is a response that has neither a result nor an error.
  datatype Body = Result(value: Json) | Null | Error(error: RpcError)

  // The id is the raw JSON of the request's id; a missing one is empty.
  datatype Res = Res(id: string, body: Body)

  // A request as it goes over the wire.
  datatype Sent = Sent(id: string, rpcMethod: string, params: string)

  class RpcReq {
    const id: string
    const rpcMethod: string
    var params: string

    constructor (id: string, rpcMethod: string, params: string)
      ensures this.id == id && this.rpcMethod == rpcMethod && this.params == params
    {
      this.id, this.rpcMethod, this.params := id, rpcMethod, params;
    }
  }

  // ----- Order -----

  ghost predicate Distinct<T(!new)>(s: seq<T>) {
    forall i, j :: 0 <= i < j < |s| ==> s[i] != s[j]
  }

  function IdsOf(res: seq<Res>): (ids: seq<string>)
    ensures |ids| == |res| && forall i :: 0 <= i < |res| ==> ids[i] == res[i].id
  {
    seq(|res|, i requires 0 <= i < |res| => res[i].id)
  }

  // Where a response belongs; an unknown id counts as the first place, as a missing key does in Go.
  function Place(pos: map<string, nat>, r: Res): nat {
    if r.id in pos then pos[r.id] else 0
  }

  ghost predicate Sorted(pos: map<string, nat>, res: seq<Res>) {
    forall i, j :: 0 <= i < j < |res| ==> Place(pos, res[i]) <= Place(pos, res[j])
  }

  lemma SwapKeepsAll<T>(s: seq<T>, j: nat)
    requires 0 < j < |s|
    ensures multiset(s[j - 1 := s[j]][j := s[j - 1]]) == multiset(s)
  {
  }

  // Stands for sort.Slice: whatever the algorithm, the result is sorted and has the same elements.
  method SortByPlace(a: array<Res>, pos: map<string, nat>)
    modifies a
    ensures Sorted(pos, a[..]) && multiset(a[..]) == multiset(old(a[..]))
  {
    var i := 0;
    while i < a.Length
      invariant i <= a.Length
      invariant Sorted(pos, a[..i])
      invariant multiset(a[..]) == multiset(old(a[..]))
    {
      Insert(a, pos, i);
      i := i + 1;
    }
    assert a[..i] == a[..];
  }

  method SwapDown(a: array<Res>, j: nat)
    requires 0 < j < a.Length
    modifies a
    ensures a[j] == old(a[j - 1]) && a[j - 1] == old(a[j])
    ensures forall k :: 0 <= k < a.Length && k != j && k != j - 1 ==> a[k] == old(a[k])
    ensures multiset(a[..]) == multiset(old(a[..]))
  {
    SwapKeepsAll(a[..], j);
    a[j - 1], a[j] := a[j], a[j - 1];
    assert a[..] == old(a[..])[j - 1 := old(a[j])][j := old(a[j - 1])];
  }

  // Put the element at i into its place in the sorted part before it.
  method Insert(a: array<Res>, pos: map<string, nat>, i: nat)
    requires i < a.Length && Sorted(pos, a[..i])
    modifies a
    ensures Sorted(pos, a[..i + 1]) && multiset(a[..]) == multiset(old(a[..]))
  {
    hide Place;
    var j := i;
    assert forall p, q :: 0 <= p < q < i ==> Place(pos, a[..i][p]) <= Place(pos, a[..i][q]);
    while j > 0 && Place(pos, a[j]) < Place(pos, a[j - 1])
      invariant j <= i
      invariant forall p, q :: 0 <= p < q <= i && q != j ==> Place(pos, a[p]) <= Place(pos, a[q])
      invariant multiset(a[..]) == multiset(old(a[..]))
    {
      SwapDown(a, j);
      j := j - 1;
    }
  }

  // The place of every id.
  function PlacesOf(ids: seq<string>): (pos: map<string, nat>)
    ensures forall x :: x in pos <==> x in ids
    ensures forall x :: x in pos ==> pos[x] < |ids| && ids[pos[x]] == x
  {
    if ids == [] then map[] else PlacesOf(ids[..|ids| - 1])[ids[|ids| - 1] := |ids| - 1]
  }

  // Response i has the id of request i.
  ghost predicate Aligned(ids: seq<string>, res: seq<Res>) {
    |res| == |ids| && forall i :: 0 <= i < |ids| ==> res[i].id == ids[i]
  }

  function Without<T>(s: seq<T>, k: nat): (rest: seq<T>)
    requires k < |s|
    ensures |rest| == |s| - 1
  {
    s[..k] + s[k + 1..]
  }

  lemma TakeOut<T>(s: seq<T>, k: nat)
    requires k < |s|
    ensures multiset(Without(s, k)) == multiset(s) - multiset{s[k]}
  {
    assert s == s[..k] + [s[k]] + s[k + 1..];
  }

  lemma IdsTakeOut(t: seq<Res>, k: nat)
    requires k < |t|
    ensures multiset(IdsOf(Without(t, k))) == multiset(IdsOf(t)) - multiset{t[k].id}
    ensures t[k].id in multiset(IdsOf(t))
  {
    TakeOut(IdsOf(t), k);
    assert Without(IdsOf(t), k) == IdsOf(Without(t, k));
    assert IdsOf(t)[k] in IdsOf(t);
  }

  lemma PutBack(a: multiset<string>, b: multiset<string>, x: string)
    requires x in a && x in b && a - multiset{x} == b - multiset{x}
    ensures a == b
  {
    assert a == a - multiset{x} + multiset{x} && b == b - multiset{x} + multiset{x};
  }

  lemma {:induction false} SameIds(s: seq<Res>, t: seq<Res>)
    requires multiset(s) == multiset(t)
    ensures multiset(IdsOf(s)) == multiset(IdsOf(t))
    decreases |s|
  {
    hide IdsOf, Without;
    if s == [] {
      assert |multiset(t)| == 0;
      assert t == s;
    } else {
      var x := s[0];
      assert x in multiset(t);
      var k :| 0 <= k < |t| && t[k] == x;
      TakeOut(s, 0);
      TakeOut(t, k);
      SameIds(Without(s, 0), Without(t, k));
      IdsTakeOut(s, 0);
      IdsTakeOut(t, k);
      PutBack(multiset(IdsOf(s)), multiset(IdsOf(t)), x.id);
    }
  }

  lemma RepeatsShow(s: seq<string>, t: seq<string>)
    requires Distinct(s) && multiset(s) == multiset(t)
    ensures Distinct(t) && forall x :: x in t <==> x in s
  {
    forall i, j | 0 <= i < j < |t| ensures t[i] != t[j] {
      if t[i] == t[j] {
        TwiceCounts(t, i, j);
        assert t[i] in multiset(s);
        OnceCounts(s, t[i]);
      }
    }
    forall x ensures x in t <==> x in s {
      assert x in t <==> x in multiset(t);
      assert x in s <==> x in multiset(s);
    }
  }

  lemma TwiceCounts(t: seq<string>, i: nat, j: nat)
    requires i < j < |t| && t[i] == t[j]
    ensures multiset(t)[t[i]] >= 2
  {
    assert t == t[..i] + [t[i]] + t[i + 1..j] + [t[j]] + t[j + 1..];
  }

  lemma {:induction false} OnceCounts(s: seq<string>, x: string)
    requires Distinct(s)
    ensures multiset(s)[x] <= 1
  {
    if s != [] {
      assert s == [s[0]] + s[1..];
      OnceCounts(s[1..], x);
    }
  }

  // n increasing places below n are all of them in order.
  lemma {:induction false} PlacesFillUp(q: seq<nat>, i: nat)
    requires i < |q| && (forall k :: 0 <= k < |q| ==> q[k] < |q|) && forall j, k :: 0 <= j < k < |q| ==> q[j] < q[k]
    ensures q[i] == i
  {
    AtLeastPlace(q, i);
    AtMostPlace(q, i);
  }

  lemma {:induction false} AtLeastPlace(q: seq<nat>, i: nat)
    requires i < |q| && forall j, k :: 0 <= j < k < |q| ==> q[j] < q[k]
    ensures q[i] >= i
  {
    if i > 0 {
      AtLeastPlace(q, i - 1);
    }
  }

  lemma {:induction false} AtMostPlace(q: seq<nat>, i: nat)
    requires i < |q| && (forall k :: 0 <= k < |q| ==> q[k] < |q|) && forall j, k :: 0 <= j < k < |q| ==> q[j] < q[k]
    ensures q[i] <= i
    decreases |q| - i
  {
    if i < |q| - 1 {
      AtMostPlace(q, i + 1);
    }
  }

  /** Sorting puts response i at request i exactly when the ids sent back are those sent, in whatever order. */
  lemma SortingAligns(ids: seq<string>, res: seq<Res>, sorted: seq<Res>)
    requires Distinct(ids) && |res| == |ids|
    requires Sorted(PlacesOf(ids), sorted) && multiset(sorted) == multiset(res)
    ensures Aligned(ids, sorted) <==> multiset(IdsOf(res)) == multiset(ids)
  {
    hide Place, PlacesOf;
    assert |sorted| == |res| by { assert |multiset(sorted)| == |multiset(res)|; }
    SameIds(sorted, res);
    if Aligned(ids, sorted) {
      assert IdsOf(sorted) == ids;
    }
    if multiset(IdsOf(res)) == multiset(ids) {
      AlignedWhenSorted(ids, sorted);
    }
  }

  lemma AlignedWhenSorted(ids: seq<string>, sorted: seq<Res>)
    requires Distinct(ids) && |sorted| == |ids| && multiset(IdsOf(sorted)) == multiset(ids)
    requires Sorted(PlacesOf(ids), sorted)
    ensures Aligned(ids, sorted)
  {
    hide PlacesOf, IdsOf;
    var pos, n := PlacesOf(ids), |ids|;
    RepeatsShow(ids, IdsOf(sorted));
    forall i | 0 <= i < n ensures sorted[i].id in pos {
      assert IdsOf(sorted)[i] in IdsOf(sorted);
    }
    AlignedWhenPlaced(ids, sorted, pos);
  }

  lemma AlignedWhenPlaced(ids: seq<string>, sorted: seq<Res>, pos: map<string, nat>)
    requires |sorted| == |ids| && Distinct(IdsOf(sorted)) && Sorted(pos, sorted)
    requires forall x :: x in pos ==> pos[x] < |ids| && ids[pos[x]] == x
    requires forall i :: 0 <= i < |sorted| ==> sorted[i].id in pos
    ensures Aligned(ids, sorted)
  {
    hide IdsOf;
    var q := seq(|ids|, i requires 0 <= i < |ids| => pos[sorted[i].id]);
    forall i, j | 0 <= i < j < |ids| ensures q[i] < q[j] {
      assert IdsOf(sorted)[i] != IdsOf(sorted)[j];
      assert Place(pos, sorted[i]) <= Place(pos, sorted[j]);
    }
    forall i | 0 <= i < |ids| ensures sorted[i].id == ids[i] {
      PlacesFillUp(q, i);
    }
  }

  function ReqIds(reqs: seq<RpcReq>): (ids: seq<string>)
    ensures |ids| == |reqs| && forall i :: 0 <= i < |reqs| ==> ids[i] == reqs[i].id
  {
    seq(|reqs|, i requires 0 <= i < |reqs| => reqs[i].id)
  }

  lemma NotPlacedBefore(ids: seq<string>, i: nat)
    requires Distinct(ids) && i < |ids|
    ensures ids[i] !in PlacesOf(ids[..i])
  {
  }

  // Duplicate ids would be a panic.
  method SortBatchRpcResponse(reqs: seq<RpcReq>, res: array<Res>)
    requires Distinct(ReqIds(reqs))
    modifies res
    ensures Sorted(PlacesOf(ReqIds(reqs)), res[..]) && multiset(res[..]) == multiset(old(res[..]))
  {
    ghost var ids := ReqIds(reqs);
    var pos: map<string, nat> := map[];
    for i := 0 to |reqs|
      invariant pos == PlacesOf(ids[..i]) && res[..] == old(res[..])
    {
      var key := reqs[i].id;
      NotPlacedBefore(ids, i);
      if key in pos {
        assert false;
      }
      pos := pos[key := i];
      assert ids[..i + 1][..i] == ids[..i];
    }
    assert ids[..|reqs|] == ids;
    SortByPlace(res, pos);
  }

  // ----- Backends -----

  datatype Reply = Replies(res: seq<Res>) | Fails(error: RpcError)

  function OnWire(reqs: seq<RpcReq>): (sent: seq<Sent>)
    reads set i | 0 <= i < |reqs| :: reqs[i]
    ensures |sent| == |reqs| && forall i :: 0 <= i < |reqs| ==> sent[i].id == reqs[i].id
  {
    seq(|reqs|, i requires 0 <= i < |reqs| reads set k | 0 <= k < |reqs| :: reqs[k] =>
      Sent(reqs[i].id, reqs[i].rpcMethod, reqs[i].params))
  }

  function SentIds(sent: seq<Sent>): seq<string> {
    seq(|sent|, i requires 0 <= i < |sent| => sent[i].id)
  }

  /** A backend: what it replies to what is posted to it. */
  class Backend {
    const post: seq<Sent> -> Reply

    constructor (post: seq<Sent> -> Reply)
      ensures this.post == post
    {
      this.post := post;
    }

    // It sends back the ids it was sent, in any order.
    ghost predicate Honest() {
      forall sent :: post(sent).Replies? && |post(sent).res| == |sent| ==>
        multiset(IdsOf(post(sent).res)) == multiset(SentIds(sent))
    }

    // It sends back as many responses as it was sent requests.
    predicate Answers(sent: seq<Sent>) {
      post(sent).Replies? && |post(sent).res| == |sent|
    }

    method Forward(reqs: seq<RpcReq>) returns (res: seq<Res>, err: Option<RpcError>)
      requires Distinct(ReqIds(reqs))
      ensures err.None? ==>
        var reply := post(OnWire(reqs));
        reply.Replies? && |res| == |reqs| && multiset(res) == multiset(reply.res)
        && (Aligned(ReqIds(reqs), res) <==> multiset(IdsOf(reply.res)) == multiset(ReqIds(reqs)))
      ensures err.None? <==> Answers(OnWire(reqs))
      ensures err.Some? ==>
        err.value == if post(OnWire(reqs)).Fails? then post(OnWire(reqs)).error else UnexpectedJsonRpc
    {
      var reply := post(OnWire(reqs));
      if reply.Fails? {
        return [], Some(reply.error);
      }
      if |reqs| != |reply.res| {
        return [], Some(UnexpectedJsonRpc);
      }
      var replies := reply.res;
      var a := new Res[|replies|](i requires 0 <= i < |replies| => replies[i]);
      assert a[..] == replies;
      SortBatchRpcResponse(reqs, a);
      res := a[..];
      assert |multiset(res)| == |multiset(replies)|;
      SortingAligns(ReqIds(reqs), replies, res);
      err := None;
    }
  }

  // ----- Splicing -----

  // What the proxy answers itself, request by request.
  type Plan = seq<Option<Res>>

  // How many of the requests go to a backend.
  function Passed(plan: Plan): (n: nat)
    ensures n <= |plan|
  {
    if plan == [] then 0 else Passed(plan[..|plan| - 1]) + (if plan[|plan| - 1].None? then 1 else 0)
  }

  /** The answers in the order of the requests: the proxy's own where it has one, else the next reply. */
  function Merge(plan: Plan, replies: seq<Res>): (res: seq<Res>)
    requires |replies| == Passed(plan)
    ensures |res| == |plan|
  {
    if plan == [] then []
    else
      var front, last := plan[..|plan| - 1], plan[|plan| - 1];
      if last.Some? then Merge(front, replies) + [last.value]
      else Merge(front, replies[..|replies| - 1]) + [replies[|replies| - 1]]
  }

  // The overridden responses with their places.
  function Overridden(plan: Plan): seq<(nat, Res)> {
    if plan == [] then []
    else
      var front, last := plan[..|plan| - 1], plan[|plan| - 1];
      Overridden(front) + if last.Some? then [(|plan| - 1, last.value)] else []
  }

  // Insert the overridden responses one after the other, as the code does.
  function Splice(res: seq<Res>, ovs: seq<(nat, Res)>): seq<Res> {
    if ovs == [] then res
    else
      var before, ov := Splice(res, ovs[..|ovs| - 1]), ovs[|ovs| - 1];
      if |before| > 0 && ov.0 <= |before| then before[..ov.0] + [ov.1] + before[ov.0..] else before + [ov.1]
  }

  lemma {:induction false} OverriddenCount(plan: Plan)
    ensures |Overridden(plan)| + Passed(plan) == |plan|
  {
    if plan != [] {
      OverriddenCount(plan[..|plan| - 1]);
    }
  }

  lemma SpliceOne(res: seq<Res>, ovs: seq<(nat, Res)>, at: nat, r: Res, before: seq<Res>, rest: seq<Res>)
    requires Splice(res, ovs) == before + rest && at == |before|
    ensures Splice(res, ovs + [(at, r)]) == (before + [r]) + rest
  {
    var all := ovs + [(at, r)];
    assert all[..|all| - 1] == ovs;
    assert (before + rest)[..at] == before && (before + rest)[at..] == rest;
    if before + rest == [] {
      assert rest == [];
    }
  }

  // Splicing into more replies than the plan passes on leaves the surplus behind the merged answers.
  lemma {:induction false} SpliceMerges(plan: Plan, replies: seq<Res>, rest: seq<Res>)
    requires |replies| == Passed(plan)
    ensures Splice(replies + rest, Overridden(plan)) == Merge(plan, replies) + rest
    decreases |plan|
  {
    hide Splice;
    if plan == [] {
      assert replies + rest == rest;
      SpliceNothing(rest);
      assert [] + rest == rest;
    } else {
      var front, last := plan[..|plan| - 1], plan[|plan| - 1];
      if last.Some? {
        SpliceMerges(front, replies, rest);
        SpliceOne(replies + rest, Overridden(front), |front|, last.value, Merge(front, replies), rest);
      } else {
        var init, x := replies[..|replies| - 1], replies[|replies| - 1];
        SpliceMerges(front, init, [x] + rest);
        assert Overridden(front) + [] == Overridden(front);
        assert replies + rest == init + ([x] + rest);
        assert Merge(front, init) + ([x] + rest) == (Merge(front, init) + [x]) + rest;
      }
    }
  }

  lemma SpliceNothing(res: seq<Res>)
    ensures Splice(res, []) == res
  {
  }

  lemma SpliceIsMerge(plan: Plan, replies: seq<Res>)
    requires |replies| == Passed(plan)
    ensures Splice(replies, Overridden(plan)) == Merge(plan, replies)
  {
    SpliceMerges(plan, replies, []);
    assert replies + [] == replies && Merge(plan, replies) + [] == Merge(plan, replies);
  }

  lemma {:induction false} SpliceGrows(res: seq<Res>, ovs: seq<(nat, Res)>)
    ensures |Splice(res, ovs)| == |res| + |ovs|
    decreases |ovs|
  {
    if ovs != [] {
      SpliceGrows(res, ovs[..|ovs| - 1]);
    }
  }

  // An overridden response always falls inside the responses gathered so far, or just behind them.
  lemma {:induction false} PlaceIsReached(plan: Plan, j: nat)
    requires j < |Overridden(plan)|
    ensures Overridden(plan)[j].0 <= Passed(plan) + j
  {
    var front := plan[..|plan| - 1];
    OverriddenCount(front);
    if j < |Overridden(front)| {
      PlaceIsReached(front, j);
    }
  }

  // ----- Which requests are passed on -----

  // The requests that go to a backend, in their order.
  function PassedOn<T>(s: seq<T>, plan: Plan): (passed: seq<T>)
    requires |s| == |plan|
    ensures |passed| == Passed(plan)
  {
    if plan == [] then []
    else
      PassedOn(s[..|s| - 1], plan[..|plan| - 1]) + if plan[|plan| - 1].None? then [s[|s| - 1]] else []
  }

  lemma {:induction false} PassedOnKeeps<T(!new)>(s: seq<T>, plan: Plan)
    requires |s| == |plan| && Distinct(s)
    ensures Distinct(PassedOn(s, plan)) && forall x :: x in PassedOn(s, plan) ==> x in s
  {
    if plan != [] {
      var front, last := s[..|s| - 1], s[|s| - 1];
      PassedOnKeeps(front, plan[..|plan| - 1]);
      assert forall i :: 0 <= i < |front| ==> front[i] == s[i];
      assert last !in front;
      var passed := PassedOn(front, plan[..|plan| - 1]);
      assert last !in passed;
      assert Distinct(passed + [last]);
    }
  }

  lemma {:induction false} PassedOnIds(reqs: seq<RpcReq>, plan: Plan)
    requires |reqs| == |plan|
    ensures ReqIds(PassedOn(reqs, plan)) == PassedOn(ReqIds(reqs), plan)
    decreases |plan|
  {
    if plan != [] {
      PassedOnIds(reqs[..|reqs| - 1], plan[..|plan| - 1]);
      assert ReqIds(reqs[..|reqs| - 1]) == ReqIds(reqs)[..|reqs| - 1];
    }
  }

  lemma {:induction false} PassedOnKeepsAll(reqs: seq<RpcReq>, plan: Plan)
    requires |reqs| == |plan|
    ensures forall i :: 0 <= i < |PassedOn(reqs, plan)| ==> PassedOn(reqs, plan)[i] in reqs
    decreases |plan|
  {
    if plan != [] {
      PassedOnKeepsAll(reqs[..|reqs| - 1], plan[..|plan| - 1]);
    }
  }

  // The proxy's own answers carry the ids of their requests.
  ghost predicate OwnIds(ids: seq<string>, plan: Plan) {
    |ids| == |plan| && forall i :: 0 <= i < |plan| && plan[i].Some? ==> plan[i].value.id == ids[i]
  }

  /** The answers are aligned with all requests exactly when the replies are with the requests passed on. */
  lemma {:induction false} MergeAligns(ids: seq<string>, plan: Plan, replies: seq<Res>)
    requires |ids| == |plan| && OwnIds(ids, plan) && |replies| == Passed(plan)
    ensures Aligned(ids, Merge(plan, replies)) <==> Aligned(PassedOn(ids, plan), replies)
    decreases |plan|
  {
    hide Aligned, OwnIds;
    if plan == [] {
      BothEmpty(ids, Merge(plan, replies), PassedOn(ids, plan), replies);
    } else {
      var front, last, init := plan[..|plan| - 1], plan[|plan| - 1], ids[..|ids| - 1];
      OwnIdsFront(ids, plan);
      assert ids == init + [ids[|ids| - 1]];
      if last.Some? {
        MergeAligns(init, front, replies);
        AlignedSnoc(init, ids[|ids| - 1], Merge(front, replies), last.value);
        assert PassedOn(init, front) + [] == PassedOn(init, front);
      } else {
        var x, rest := replies[|replies| - 1], replies[..|replies| - 1];
        MergeAligns(init, front, rest);
        AlignedSnoc(init, ids[|ids| - 1], Merge(front, rest), x);
        AlignedSnoc(PassedOn(init, front), ids[|ids| - 1], rest, x);
        assert replies == rest + [x];
      }
    }
  }

  lemma BothEmpty(ids: seq<string>, res: seq<Res>, ids': seq<string>, res': seq<Res>)
    requires ids == [] && res == [] && ids' == [] && res' == []
    ensures Aligned(ids, res) && Aligned(ids', res')
  {
  }

  lemma OwnIdsFront(ids: seq<string>, plan: Plan)
    requires OwnIds(ids, plan) && plan != []
    ensures |ids| == |plan| && OwnIds(ids[..|ids| - 1], plan[..|plan| - 1])
    ensures plan[|plan| - 1].Some? ==> plan[|plan| - 1].value.id == ids[|ids| - 1]
  {
  }

  /** The proxy's own answers stand unchanged, and all others are replies. */
  lemma {:induction false} MergeElements(plan: Plan, replies: seq<Res>, i: nat)
    requires |replies| == Passed(plan) && i < |plan|
    ensures if plan[i].Some? then Merge(plan, replies)[i] == plan[i].value else Merge(plan, replies)[i] in replies
    decreases |plan|
  {
    var front := plan[..|plan| - 1];
    if i < |front| {
      if plan[|plan| - 1].Some? {
        MergeElements(front, replies, i);
      } else {
        MergeElements(front, replies[..|replies| - 1], i);
      }
    }
  }

  lemma AlignedSnoc(ids: seq<string>, id: string, res: seq<Res>, r: Res)
    requires |res| == |ids|
    ensures Aligned(ids + [id], res + [r]) <==> Aligned(ids, res) && r.id == id
  {
    if Aligned(ids + [id], res + [r]) {
      assert forall i :: 0 <= i < |ids| ==> (res + [r])[i] == res[i] && (ids + [id])[i] == ids[i];
      assert (res + [r])[|res|] == r && (ids + [id])[|ids|] == id;
    }
  }

  // ----- Groups of backends -----

  // Errors after which no other backend is tried.
  predicate IsFinal(error: RpcError) {
    error in {ReceiptsCantBeBatched, ReceiptsInvalidTarget, MethodNotWhitelisted}
  }

  // The search ends at this backend: it answers, or fails for good, or there is nothing to post.
  predicate Ends(b: Backend, sent: seq<Sent>) {
    sent == [] || b.Answers(sent) || (b.post(sent).Fails? && IsFinal(b.post(sent).error))
  }

  // The first backend at which the search ends.
  function FirstEnd(pool: seq<Backend>, sent: seq<Sent>): (k: nat)
    ensures k <= |pool| && (k < |pool| ==> Ends(pool[k], sent))
    ensures forall j :: 0 <= j < k ==> !Ends(pool[j], sent)
  {
    if pool == [] || Ends(pool[0], sent) then 0 else 1 + FirstEnd(pool[1..], sent)
  }

  lemma FirstEndIs(pool: seq<Backend>, sent: seq<Sent>, k: nat)
    requires k <= |pool| && (forall j :: 0 <= j < k ==> !Ends(pool[j], sent)) && (k < |pool| ==> Ends(pool[k], sent))
    ensures FirstEnd(pool, sent) == k
  {
  }

  /** How posting to a pool comes out: the error of the first backend at which the search ends, or none if that
      backend answers; no backend at all is an error of its own. */
  function Outcome(pool: seq<Backend>, sent: seq<Sent>): (error: Option<RpcError>)
    ensures error.Some? ==> error.value == NoBackends || IsFinal(error.value)
  {
    var k := FirstEnd(pool, sent);
    if k == |pool| then Some(NoBackends)
    else if sent == [] || pool[k].Answers(sent) then None
    else Some(pool[k].post(sent).error)
  }

  // Backend k is the first at which the search ends.
  ghost predicate IsFirstEnd(pool: seq<Backend>, sent: seq<Sent>, k: nat) {
    k < |pool| && Ends(pool[k], sent) && forall j :: 0 <= j < k ==> !Ends(pool[j], sent)
  }

  /** Posting something comes out well if and only if some backend answers and none before it fails for good; with a
      final error if and only if some backend fails with it, and none before it answers or fails for good; and
      otherwise nobody has answered. */
  lemma OutcomeExactly(pool: seq<Backend>, sent: seq<Sent>)
    requires sent != []
    ensures Outcome(pool, sent).None? <==> exists k: nat :: IsFirstEnd(pool, sent, k) && pool[k].Answers(sent)
    ensures forall e :: Outcome(pool, sent) == Some(e) && e != NoBackends <==>
      e in {ReceiptsCantBeBatched, ReceiptsInvalidTarget, MethodNotWhitelisted}
      && exists k: nat :: IsFirstEnd(pool, sent, k) && pool[k].post(sent) == Fails(e)
    ensures forall b :: b in pool ==>
      (Ends(b, sent) <==>
        match b.post(sent)
        case Replies(res) => |res| == |sent|
        case Fails(e) => e in {ReceiptsCantBeBatched, ReceiptsInvalidTarget, MethodNotWhitelisted})
    ensures Outcome(pool, sent) == Some(NoBackends) <==> forall b :: b in pool ==> !Ends(b, sent)
  {
    var f := FirstEnd(pool, sent);
    forall k: nat | IsFirstEnd(pool, sent, k) ensures k == f {
      FirstEndIs(pool, sent, k);
    }
    if f < |pool| {
      assert IsFirstEnd(pool, sent, f) && pool[f] in pool;
    }
  }

  // What rewriting block tags does to a request.
  datatype Rewrite = OverrideError(error: RpcError) | OverrideResponse(value: Json) | OverrideRequest(params: string)
                   | NoRewrite

  class BackendGroup {
    const consensusAware: bool
    const rewrite: (string, string) -> Rewrite

    constructor (consensusAware: bool, rewrite: (string, string) -> Rewrite)
      ensures this.consensusAware == consensusAware && this.rewrite == rewrite
    {
      this.consensusAware, this.rewrite := consensusAware, rewrite;
    }

    // The proxy's own answer to a call, if it has one.
    function Answer(id: string, rpcMethod: string, params: string): Option<Res> {
      if !consensusAware then None
      else
        match rewrite(rpcMethod, params)
        case OverrideError(error) => Some(Res(id, Error(error)))
        case OverrideResponse(value) => Some(Res(id, Result(value)))
        case _ => None
    }

    // The parameters a call is passed on with.
    function Rewritten(rpcMethod: string, params: string): string {
      if !consensusAware then params
      else
        match rewrite(rpcMethod, params)
        case OverrideRequest(params') => params'
        case _ => params
    }

    /** What the group makes of a call.  Without consensus nothing; with it, what rewriting the block tags says: an
        error or a value of its own, or other parameters. */
    lemma RewriteMeaning(id: string, rpcMethod: string, params: string)
      ensures !consensusAware ==> Answer(id, rpcMethod, params).None? && Rewritten(rpcMethod, params) == params
      ensures consensusAware ==>
        match rewrite(rpcMethod, params)
        case OverrideError(error) => Answer(id, rpcMethod, params) == Some(Res(id, Error(error)))
        case OverrideResponse(value) => Answer(id, rpcMethod, params) == Some(Res(id, Result(value)))
        case OverrideRequest(params') =>
          Answer(id, rpcMethod, params).None? && Rewritten(rpcMethod, params) == params'
        case NoRewrite => Answer(id, rpcMethod, params).None? && Rewritten(rpcMethod, params) == params
    {
    }

    function Own(req: RpcReq): Option<Res>
      reads req
    {
      Answer(req.id, req.rpcMethod, req.params)
    }

    function PlanFor(reqs: seq<RpcReq>): (plan: Plan)
      reads reqs
      ensures |plan| == |reqs| && OwnIds(ReqIds(reqs), plan)
    {
      seq(|reqs|, i requires 0 <= i < |reqs| reads reqs => Own(reqs[i]))
    }

    // The proxy's own answer, or else the request rewritten in place.
    method RewriteOne(req: RpcReq) returns (own: Option<Res>)
      modifies req
      ensures own == old(Own(req)) && req.params == Rewritten(req.rpcMethod, old(req.params))
    {
      if !consensusAware {
        return None;
      }
      match rewrite(req.rpcMethod, req.params) {
        case OverrideError(error) =>
          return Some(Res(req.id, Error(error)));
        case OverrideResponse(value) =>
          return Some(Res(req.id, Result(value)));
        case OverrideRequest(params) =>
          req.params := params;
          return None;
        case NoRewrite =>
          return None;
      }
    }

    lemma RequestsDiffer(reqs: seq<RpcReq>)
      requires Distinct(ReqIds(reqs))
      ensures forall i, j :: 0 <= i < j < |reqs| ==> reqs[i] != reqs[j]
    {
      assert forall i, j :: 0 <= i < j < |reqs| ==> ReqIds(reqs)[i] != ReqIds(reqs)[j];
    }

    lemma DivideNothing(reqs: seq<RpcReq>, plan: Plan)
      requires |reqs| == |plan|
      ensures Overridden(plan[..0]) == [] && PassedOn(reqs[..0], plan[..0]) == []
    {
    }

    lemma DivideNext(reqs: seq<RpcReq>, plan: Plan, i: nat)
      requires i < |reqs| == |plan|
      ensures Overridden(plan[..i + 1]) == Overridden(plan[..i]) + if plan[i].Some? then [(i, plan[i].value)] else []
      ensures PassedOn(reqs[..i + 1], plan[..i + 1])
           == PassedOn(reqs[..i], plan[..i]) + if plan[i].None? then [reqs[i]] else []
    {
      assert plan[..i + 1][..i] == plan[..i] && reqs[..i + 1][..i] == reqs[..i];
    }

    // Go through the requests once: gather the proxy's own answers, rewrite and gather the other requests.
    method Divide(reqs: seq<RpcReq>) returns (ovs: seq<(nat, Res)>, passed: seq<RpcReq>)
      requires Distinct(ReqIds(reqs))
      modifies reqs
      ensures ovs == Overridden(old(PlanFor(reqs))) && passed == PassedOn(reqs, old(PlanFor(reqs)))
      ensures forall i :: 0 <= i < |reqs| ==> reqs[i].params == Rewritten(reqs[i].rpcMethod, old(reqs[i].params))
    {
      hide Own, Rewritten, Distinct, ReqIds, Overridden, PassedOn;
      RequestsDiffer(reqs);
      ghost var plan := PlanFor(reqs);
      ovs, passed := [], [];
      DivideNothing(reqs, plan);
      for i := 0 to |reqs|
        invariant ovs == Overridden(plan[..i]) && passed == PassedOn(reqs[..i], plan[..i])
        invariant forall j :: i <= j < |reqs| ==> Own(reqs[j]) == plan[j] && reqs[j].params == old(reqs[j].params)
        invariant forall j :: 0 <= j < i ==> reqs[j].params == Rewritten(reqs[j].rpcMethod, old(reqs[j].params))
      {
        DivideNext(reqs, plan, i);
        var own := RewriteOne(reqs[i]);
        if own.Some? {
          ovs := ovs + [(i, own.value)];
        } else {
          passed := passed + [reqs[i]];
        }
      }
      assert plan[..|reqs|] == plan && reqs[..|reqs|] == reqs;
    }

    // Put the proxy's own answers back among the replies.
    method Reapply(replies: seq<Res>, ovs: seq<(nat, Res)>, ghost plan: Plan) returns (res: seq<Res>)
      requires ovs == Overridden(plan) && |replies| == Passed(plan)
      ensures res == Merge(plan, replies)
    {
      res := replies;
      for j := 0 to |ovs|
        invariant res == Splice(replies, ovs[..j])
      {
        SpliceGrows(replies, ovs[..j]);
        PlaceIsReached(plan, j);
        assert ovs[..j + 1][..j] == ovs[..j];
        var (index, r) := ovs[j];
        if |res| > 0 {
          res := res[..index] + ([r] + res[index..]);
        } else {
          res := res + [r];
        }
      }
      assert ovs[..|ovs|] == ovs;
      SpliceIsMerge(plan, replies);
    }

    lemma {:induction false} PassedOnHas(reqs: seq<RpcReq>, plan: Plan, i: nat)
      requires |reqs| == |plan| && i < |plan| && plan[i].None?
      ensures reqs[i] in PassedOn(reqs, plan)
      decreases |plan|
    {
      if i < |plan| - 1 {
        PassedOnHas(reqs[..|reqs| - 1], plan[..|plan| - 1], i);
      }
    }

    // No id goes over the wire twice.
    lemma PostedDistinct(reqs: seq<RpcReq>, plan: Plan)
      requires |reqs| == |plan| && Distinct(ReqIds(reqs))
      ensures Distinct(SentIds(Posted(reqs, plan))) && |Posted(reqs, plan)| <= |reqs|
    {
      PassedOnIds(reqs, plan);
      PassedOnKeeps(ReqIds(reqs), plan);
      assert SentIds(Posted(reqs, plan)) == ReqIds(PassedOn(reqs, plan));
    }

    // A request that is passed on goes over the wire.
    lemma PostedHas(reqs: seq<RpcReq>, plan: Plan, i: nat)
      requires |reqs| == |plan| && i < |plan| && plan[i].None?
      ensures Sent(reqs[i].id, reqs[i].rpcMethod, reqs[i].params) in Posted(reqs, plan)
    {
      PassedOnHas(reqs, plan, i);
      var k :| 0 <= k < |PassedOn(reqs, plan)| && PassedOn(reqs, plan)[k] == reqs[i];
      assert OnWire(PassedOn(reqs, plan))[k] == Sent(reqs[i].id, reqs[i].rpcMethod, reqs[i].params);
    }

    // Everything that goes over the wire is a request that is passed on.
    lemma PostedFrom(reqs: seq<RpcReq>, plan: Plan, s: Sent)
      requires |reqs| == |plan| && s in Posted(reqs, plan)
      ensures exists i :: 0 <= i < |reqs| && plan[i].None? && s == Sent(reqs[i].id, reqs[i].rpcMethod, reqs[i].params)
    {
      var passed := PassedOn(reqs, plan);
      var k :| 0 <= k < |passed| && OnWire(passed)[k] == s;
      PassedOnFrom(reqs, plan, passed[k]);
    }

    lemma {:induction false} PassedOnFrom(reqs: seq<RpcReq>, plan: Plan, req: RpcReq)
      requires |reqs| == |plan| && req in PassedOn(reqs, plan)
      ensures exists i :: 0 <= i < |reqs| && plan[i].None? && req == reqs[i]
      decreases |plan|
    {
      var front, last := plan[..|plan| - 1], |plan| - 1;
      if req in PassedOn(reqs[..last], front) {
        PassedOnFrom(reqs[..last], front, req);
        var i :| 0 <= i < last && front[i].None? && req == reqs[..last][i];
        assert plan[i].None? && req == reqs[i];
      }
    }

    // What goes over the wire for a batch with this plan.
    function Posted(reqs: seq<RpcReq>, plan: Plan): seq<Sent>
      requires |reqs| == |plan|
      reads reqs
    {
      PassedOnKeepsAll(reqs, plan);
      OnWire(PassedOn(reqs, plan))
    }

    /** Forward a batch to the first backend of the pool that answers.  The answers are in the order of the
        requests: the proxy's own where it has one, and elsewhere that backend's. */
    method Forward(reqs: seq<RpcReq>, pool: seq<Backend>) returns (res: seq<Res>, err: Option<RpcError>, ghost k: nat)
      requires Distinct(ReqIds(reqs)) && forall b :: b in pool ==> b.Honest()
      modifies reqs
      ensures forall i :: 0 <= i < |reqs| ==> reqs[i].params == Rewritten(reqs[i].rpcMethod, old(reqs[i].params))
      ensures err.None? ==> Aligned(ReqIds(reqs), res)
      ensures err.None? ==> forall i :: 0 <= i < |reqs| && old(Own(reqs[i])).Some? ==> res[i] == old(Own(reqs[i])).value
      ensures var sent := Posted(reqs, old(PlanFor(reqs)));
        if reqs == [] then err.None? else
          && err == Outcome(pool, sent) && k == FirstEnd(pool, sent)
          && (err.None? ==> k < |pool| && forall i :: 0 <= i < |reqs| && old(Own(reqs[i])).None? ==>
                pool[k].Answers(sent) && res[i] in pool[k].post(sent).res)
    {
      hide OnWire, IdsOf, Backend.Honest, PassedOn, Merge, Passed, Overridden, OwnIds, Rewritten;
      k := 0;
      if |reqs| == 0 {
        return [], None, k;
      }
      ghost var plan := PlanFor(reqs);
      assert forall i :: 0 <= i < |reqs| ==> plan[i] == Own(reqs[i]);
      var ovs, passed := Divide(reqs);
      ghost var sent := OnWire(passed);
      PassedOnIds(reqs, plan);
      PassedOnKeeps(ReqIds(reqs), plan);
      for n := 0 to |pool|
        invariant k == n && OnWire(passed) == sent
        invariant forall i :: 0 <= i < |reqs| ==> reqs[i].params == Rewritten(reqs[i].rpcMethod, old(reqs[i].params))
        invariant forall j :: 0 <= j < n ==> !Ends(pool[j], sent)
      {
        var back := pool[n];
        var replies: seq<Res> := [];
        if |passed| > 0 {
          var e;
          replies, e := back.Forward(passed);
          if e.Some? && IsFinal(e.value) {
            FirstEndIs(pool, sent, k);
            return [], e, k;
          }
          if e.Some? {
            k := k + 1;
            continue;
          }
        }
        HonestRepliesAlign(back, passed, replies);
        MergeAligns(ReqIds(reqs), plan, replies);
        forall i | 0 <= i < |plan|
          ensures if plan[i].Some? then Merge(plan, replies)[i] == plan[i].value else Merge(plan, replies)[i] in replies
        {
          MergeElements(plan, replies, i);
        }
        res := Reapply(replies, ovs, plan);
        FirstEndIs(pool, sent, k);
        return res, None, k;
      }
      FirstEndIs(pool, sent, k);
      return [], Some(NoBackends), k;
    }
  }

  lemma HonestRepliesAlign(back: Backend, passed: seq<RpcReq>, replies: seq<Res>)
    requires back.Honest() && (passed == [] ==> replies == [])
    requires passed != [] ==>
      var reply := back.post(OnWire(passed));
      reply.Replies? && |replies| == |passed| && multiset(replies) == multiset(reply.res)
      && (Aligned(ReqIds(passed), replies) <==> multiset(IdsOf(reply.res)) == multiset(ReqIds(passed)))
    ensures Aligned(ReqIds(passed), replies)
    ensures forall r :: r in replies ==> back.Answers(OnWire(passed)) && r in back.post(OnWire(passed)).res
  {
    if passed != [] {
      var sent := OnWire(passed);
      assert SentIds(sent) == ReqIds(passed);
      assert |multiset(replies)| == |multiset(back.post(sent).res)|;
      forall r | r in replies ensures r in back.post(sent).res {
        assert r in multiset(replies);
      }
    }
  }
}
