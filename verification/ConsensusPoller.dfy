/**
 How the proxy finds the block its backends agree on: it keeps the heights each
 backend reports, takes the candidates, and walks back from the lowest latest
 block until all of them have the same block.
 */
module ConsensusPolling {
  import opened Words
  import opened Wrappers

  // What is known of a backend; times are seconds.
  datatype BackendState = BackendState(
    latest: Uint64, latestHash: string, safe: Uint64, finalized: Uint64, peerCount: Uint64, inSync: bool,
    lastUpdate: int, bannedUntil: int)
  {
    predicate IsBanned(now: int) {
      now < bannedUntil
    }

    // finalized <= safe <= latest
    predicate TagsOk() {
      finalized <= safe <= latest
    }

    function Banned(until: int): BackendState {
      this.(bannedUntil := until, latest := 0, safe := 0, finalized := 0)
    }
  }

  datatype BackendConfig = BackendConfig(forcedCandidate: bool, skipPeerCountCheck: bool)

  // What one round of requests to a backend gives; a failed request leaves zeros.
  datatype Probe = Probe(
    healthy: bool, inSync: bool, peerCount: Uint64, latest: Uint64, latestHash: string, safe: Uint64, finalized: Uint64)

  // ----- The lowest of many heights -----

  // The code's running minimum, in which zero means nothing yet.
  function Lowest(heights: seq<Uint64>): Uint64 {
    if heights == [] then 0
    else
      var before, n := Lowest(heights[..|heights| - 1]), heights[|heights| - 1];
      if before == 0 || n < before then n else before
  }

  predicate NoZero(heights: seq<Uint64>) {
    forall i :: 0 <= i < |heights| ==> heights[i] > 0
  }

  predicate IsLeast(heights: seq<Uint64>, n: Uint64) {
    n in heights && forall i :: 0 <= i < |heights| ==> n <= heights[i]
  }

  lemma {:induction false} LowestIsOne(heights: seq<Uint64>)
    requires heights != []
    ensures Lowest(heights) in heights
  {
    var front := heights[..|heights| - 1];
    if front != [] {
      LowestIsOne(front);
      assert forall x :: x in front ==> x in heights;
    }
  }

  lemma {:induction false} LowestOfPositive(heights: seq<Uint64>)
    requires heights != [] && NoZero(heights)
    ensures IsLeast(heights, Lowest(heights))
  {
    LowestIsOne(heights);
    var front := heights[..|heights| - 1];
    assert heights == front + [heights[|heights| - 1]];
    if front != [] {
      LowestOfPositive(front);
      assert forall i :: 0 <= i < |front| ==> front[i] == heights[i];
    }
  }

  /** The running minimum is the minimum if and only if no height is zero or the last one is. */
  lemma LowestIsLeast(heights: seq<Uint64>)
    requires heights != []
    ensures Lowest(heights) in heights
    ensures IsLeast(heights, Lowest(heights)) <==> NoZero(heights) || heights[|heights| - 1] == 0
  {
    LowestIsOne(heights);
    if NoZero(heights) {
      LowestOfPositive(heights);
    } else {
      assert Lowest(heights) == 0 <==> heights[|heights| - 1] == 0;
    }
  }

  // Where the heights after the last zero begin.
  function AfterZero(heights: seq<Uint64>): (z: nat)
    ensures z <= |heights| && (z > 0 ==> heights[z - 1] == 0)
    ensures forall i :: z <= i < |heights| ==> heights[i] > 0
  {
    if heights == [] then 0
    else if heights[|heights| - 1] == 0 then |heights|
    else AfterZero(heights[..|heights| - 1])
  }

  /** The running minimum starts over at every zero: it is the minimum of the heights after the last one. */
  lemma {:induction false} LowestSinceZero(heights: seq<Uint64>)
    ensures var z, n := AfterZero(heights), Lowest(heights);
      && (n == 0 <==> z == |heights|)
      && (forall i :: z <= i < |heights| ==> n <= heights[i])
      && (z < |heights| ==> exists i :: z <= i < |heights| && heights[i] == n)
    decreases |heights|
  {
    var z, k := AfterZero(heights), |heights| - 1;
    if k >= 0 && heights[k] != 0 {
      var front := heights[..k];
      LowestSinceZero(front);
      assert forall i :: 0 <= i < k ==> front[i] == heights[i];
      if Lowest(front) == 0 || heights[k] < Lowest(front) {
        assert heights[k] == Lowest(heights);
      } else {
        var i :| z <= i < k && front[i] == Lowest(front);
        assert heights[i] == Lowest(heights);
      }
    }
  }

  // Every backend's tags are in order.
  predicate TagsInOrder(finalized: seq<Uint64>, safe: seq<Uint64>) {
    |finalized| == |safe| && forall i :: 0 <= i < |safe| ==> finalized[i] <= safe[i]
  }

  // Since the last one without a finalized block, someone has finalized no more than is safe with all since the
  // last one without a safe block.
  predicate SomeBelowAll(finalized: seq<Uint64>, safe: seq<Uint64>) {
    var z, y := AfterZero(finalized), AfterZero(safe);
    z == |finalized| || exists i :: z <= i < |finalized| && forall j :: y <= j < |safe| ==> finalized[i] <= safe[j]
  }

  /** Exactly when the finalized number published is not above the safe one, for heights visited in a given order. */
  lemma FinalizedBelowSafe(finalized: seq<Uint64>, safe: seq<Uint64>)
    requires TagsInOrder(finalized, safe)
    ensures Lowest(finalized) <= Lowest(safe) <==> SomeBelowAll(finalized, safe)
  {
    hide AfterZero, Lowest;
    var z, y := AfterZero(finalized), AfterZero(safe);
    LowestSinceZero(finalized);
    LowestSinceZero(safe);
    assert y <= z;
    if z < |finalized| {
      var j :| y <= j < |safe| && safe[j] == Lowest(safe);
      var i :| z <= i < |finalized| && finalized[i] == Lowest(finalized);
    }
  }

  // Who has no finalized block has no safe one either.
  lemma {:induction false} SameZeros(finalized: seq<Uint64>, safe: seq<Uint64>)
    requires TagsInOrder(finalized, safe) && forall i :: 0 <= i < |safe| && finalized[i] == 0 ==> safe[i] == 0
    ensures Lowest(finalized) <= Lowest(safe) && (Lowest(finalized) == 0 ==> Lowest(safe) == 0)
    decreases |safe|
  {
    if safe != [] {
      SameZeros(finalized[..|finalized| - 1], safe[..|safe| - 1]);
    }
  }

  // No finalized block is above any safe one.
  lemma NoneAbove(finalized: seq<Uint64>, safe: seq<Uint64>)
    requires TagsInOrder(finalized, safe)
    requires forall i, j :: 0 <= i < |safe| && 0 <= j < |safe| && safe[j] > 0 ==> finalized[i] <= safe[j]
    ensures Lowest(finalized) <= Lowest(safe)
  {
    hide AfterZero, Lowest;
    LowestSinceZero(finalized);
    LowestSinceZero(safe);
    var z, y := AfterZero(finalized), AfterZero(safe);
    if z < |finalized| {
      var j :| y <= j < |safe| && safe[j] == Lowest(safe);
      var i :| z <= i < |finalized| && finalized[i] == Lowest(finalized);
    }
  }

  // A low safe block, no zero after it, and the last but one without a finalized block.
  lemma LastAbove(finalized: seq<Uint64>, safe: seq<Uint64>, c: nat)
    requires |finalized| == |safe| >= 2 && c < |safe| - 1 && forall j :: c <= j < |safe| ==> safe[j] > 0
    requires var k := |safe| - 1; finalized[k - 1] == 0 && finalized[k] > safe[c]
    ensures Lowest(finalized) > Lowest(safe)
  {
    hide AfterZero, Lowest;
    LowestSinceZero(finalized);
    LowestSinceZero(safe);
    assert AfterZero(finalized) == |safe| - 1;
    assert AfterZero(safe) <= c;
  }

  // A candidate without a finalized block, visited first, and another that has finalized more than the first has safe.
  lemma FinalizedAboveSafe(finalized: seq<Uint64>, safe: seq<Uint64>)
    requires finalized == [0, 50] && safe == [10, 60]
    ensures TagsInOrder(finalized, safe) && Lowest(finalized) == 50 && Lowest(safe) == 10
  {
    assert finalized[..1] == [0] && safe[..1] == [10];
    assert Lowest(finalized[..1]) == 0 && Lowest(safe[..1]) == 10;
  }

  // ----- All visiting orders -----

  // The heights of the candidates in the order they are visited.
  function Heights(states: seq<BackendState>, order: seq<nat>, height: BackendState -> Uint64): (hs: seq<Uint64>)
    requires forall i :: 0 <= i < |order| ==> order[i] < |states|
    ensures |hs| == |order| && forall i :: 0 <= i < |order| ==> hs[i] == height(states[order[i]])
  {
    seq(|order|, i requires 0 <= i < |order| => height(states[order[i]]))
  }

  // Every candidate is visited once.
  ghost predicate Visits(order: seq<nat>, cands: set<nat>) {
    && (forall b :: b in order <==> b in cands)
    && forall i, j :: 0 <= i < j < |order| ==> order[i] != order[j]
  }

  ghost predicate Known(states: seq<BackendState>, cands: set<nat>) {
    forall b :: b in cands ==> b < |states| && states[b].finalized <= states[b].safe
  }

  lemma VisitsKnown(states: seq<BackendState>, order: seq<nat>, cands: set<nat>)
    requires Known(states, cands) && Visits(order, cands)
    ensures forall i :: 0 <= i < |order| ==> order[i] < |states|
    ensures TagsInOrder(Finalized(states, order), Safe(states, order))
  {
    assert forall i :: 0 <= i < |order| ==> order[i] in order;
  }

  function Finalized(states: seq<BackendState>, order: seq<nat>): seq<Uint64>
    requires forall i :: 0 <= i < |order| ==> order[i] < |states|
  {
    Heights(states, order, (s: BackendState) => s.finalized)
  }

  function Safe(states: seq<BackendState>, order: seq<nat>): seq<Uint64>
    requires forall i :: 0 <= i < |order| ==> order[i] < |states|
  {
    Heights(states, order, (s: BackendState) => s.safe)
  }

  // Either nobody has a safe block without a finalized one, or no finalized block is above any safe one.
  ghost predicate NeverAbove(states: seq<BackendState>, cands: set<nat>)
    requires Known(states, cands)
  {
    || (forall b :: b in cands && states[b].finalized == 0 ==> states[b].safe == 0)
    || forall p, c :: p in cands && c in cands && states[c].safe > 0 ==> states[p].finalized <= states[c].safe
  }

  lemma NeverAboveSuffices(states: seq<BackendState>, cands: set<nat>, order: seq<nat>)
    requires Known(states, cands) && Visits(order, cands) && NeverAbove(states, cands)
    ensures forall i :: 0 <= i < |order| ==> order[i] < |states|
    ensures Lowest(Finalized(states, order)) <= Lowest(Safe(states, order))
  {
    hide Lowest;
    VisitsKnown(states, order, cands);
    var fs, ss := Finalized(states, order), Safe(states, order);
    assert forall i :: 0 <= i < |order| ==> order[i] in order;
    if forall b :: b in cands && states[b].finalized == 0 ==> states[b].safe == 0 {
      SameZeros(fs, ss);
    } else {
      NoneAbove(fs, ss);
    }
  }

  // Some order of a finite set.
  lemma {:induction false} AnOrder(cands: set<nat>) returns (order: seq<nat>)
    ensures Visits(order, cands)
  {
    if cands == {} {
      order := [];
    } else {
      var b :| b in cands;
      order := AnOrder(cands - {b});
      order := order + [b];
    }
  }

  // The order in which the finalized number published ends up above the safe one: a candidate with the low safe
  // block, then one without a finalized block, then the one with the high finalized block.
  lemma BadOrder(states: seq<BackendState>, cands: set<nat>) returns (order: seq<nat>)
    requires Known(states, cands) && !NeverAbove(states, cands)
    ensures Visits(order, cands) && forall i :: 0 <= i < |order| ==> order[i] < |states|
    ensures Lowest(Finalized(states, order)) > Lowest(Safe(states, order))
  {
    hide Visits, Lowest, Heights;
    var u :| u in cands && states[u].finalized == 0 && states[u].safe > 0;
    var p, c :| p in cands && c in cands && states[c].safe > 0 && states[p].finalized > states[c].safe;
    var front := AnOrder(cands - {c, u, p});
    order := front + (if c == u then [u, p] else [c, u, p]);
    OrderOf3(front, cands, c, u, p, order);
    VisitsKnown(states, order, cands);
    LastThreeAbove(states, front, c, u, p, order);
  }

  lemma LastThreeAbove(states: seq<BackendState>, front: seq<nat>, c: nat, u: nat, p: nat, order: seq<nat>)
    requires forall i :: 0 <= i < |order| ==> order[i] < |states|
    requires order == front + (if c == u then [u, p] else [c, u, p])
    requires c < |states| && u < |states| && p < |states|
    requires states[c].safe > 0 && states[u].safe > 0 && states[p].safe > 0
    requires states[u].finalized == 0 && states[p].finalized > states[c].safe
    ensures Lowest(Finalized(states, order)) > Lowest(Safe(states, order))
  {
    hide Lowest;
    var fs, ss, n, k := Finalized(states, order), Safe(states, order), |front|, |order| - 1;
    assert order[k] == p && order[k - 1] == u && order[n] == c;
    assert fs[k] == states[p].finalized && fs[k - 1] == 0 && ss[n] == states[c].safe;
    forall j | n <= j <= k ensures ss[j] > 0 {
      assert order[j] in {c, u, p};
    }
    LastAbove(fs, ss, n);
  }

  lemma OrderOf3(front: seq<nat>, cands: set<nat>, c: nat, u: nat, p: nat, order: seq<nat>)
    requires Visits(front, cands - {c, u, p}) && {c, u, p} <= cands && u != p && c != p
    requires order == front + (if c == u then [u, p] else [c, u, p])
    ensures Visits(order, cands)
  {
    assert forall i :: 0 <= i < |front| ==> front[i] in front;
  }

  /** The finalized number published is not above the safe one whatever the order in which the candidates are
      visited, if and only if nobody has a safe block without a finalized one or no finalized block is above any
      safe one. */
  lemma BelowInEveryOrder(states: seq<BackendState>, cands: set<nat>)
    requires Known(states, cands)
    ensures NeverAbove(states, cands) <==>
      forall order: seq<nat> :: Visits(order, cands) ==>
        (forall i :: 0 <= i < |order| ==> order[i] < |states|)
        && Lowest(Finalized(states, order)) <= Lowest(Safe(states, order))
  {
    hide NeverAbove, Lowest, Visits;
    if NeverAbove(states, cands) {
      forall order: seq<nat> | Visits(order, cands)
        ensures forall i :: 0 <= i < |order| ==> order[i] < |states|
        ensures Lowest(Finalized(states, order)) <= Lowest(Safe(states, order))
      {
        NeverAboveSuffices(states, cands, order);
      }
    } else {
      var order := BadOrder(states, cands);
    }
  }

  // ----- Agreement -----

  // A block as a backend answers with it; None is a failed request.
  type Chains = (nat, Uint64) -> Option<(Uint64, string)>

  ghost predicate NonEmptyHashes(chains: Chains) {
    forall b, n :: chains(b, n).Some? ==> chains(b, n).value.1 != ""
  }

  // Whoever answers answers with the block asked for.
  ghost predicate AsAsked(chains: Chains) {
    forall b, n :: chains(b, n).Some? ==> chains(b, n).value.0 == n
  }

  // All that answer have block n with this hash.
  predicate AllHave(chains: Chains, cands: set<nat>, n: Uint64, hash: string) {
    forall b :: b in cands && chains(b, n).Some? ==> chains(b, n).value == (n, hash)
  }

  // All that answer have one and the same block n, with the given hash if there is one.
  ghost predicate Agree(chains: Chains, cands: set<nat>, n: Uint64, hash: string) {
    if hash != "" then AllHave(chains, cands, n, hash)
    else exists h :: AllHave(chains, cands, n, h)
  }

  // All that answer have the same first block.
  ghost predicate SharedGenesis(chains: Chains) {
    exists h :: forall b: nat :: chains(b, 0).Some? ==> chains(b, 0).value == (0, h)
  }

  lemma GenesisAgrees(chains: Chains, cands: set<nat>)
    requires SharedGenesis(chains)
    ensures Agree(chains, cands, 0, "")
  {
    var h :| forall b: nat :: chains(b, 0).Some? ==> chains(b, 0).value == (0, h);
    assert AllHave(chains, cands, 0, h);
  }

  /** When every candidate's latest block is the one it answers with, the hash the search starts from demands no
      more than that all agree. */
  lemma StartHashIsAgreement(chains: Chains, cands: set<nat>, b: nat, n: Uint64, hash: string)
    requires b in cands && chains(b, n) == Some((n, hash))
    ensures Agree(chains, cands, n, hash) <==> Agree(chains, cands, n, "")
  {
    if Agree(chains, cands, n, "") {
      var h :| AllHave(chains, cands, n, h);
      assert h == hash;
    }
  }

  // One round of the walk: ask the candidates, in any order, until one does not match.
  method AskAll(chains: Chains, cands: set<nat>, n: Uint64, start: string, current: Uint64)
    returns (agreed: bool, hash: string, broken: bool)
    requires NonEmptyHashes(chains)
    ensures agreed <==> Agree(chains, cands, n, start)
    ensures agreed ==> AllHave(chains, cands, n, hash) || (hash == "" && forall b :: b in cands ==> chains(b, n).None?)
    ensures broken ==> !agreed
    ensures AsAsked(chains) ==> (broken <==> !agreed && n <= current)
  {
    hash, broken := start, false;
    var rest := cands;
    while rest != {}
      invariant rest <= cands
      invariant start != "" ==> hash == start
      invariant forall b :: b in cands - rest && chains(b, n).Some? ==> chains(b, n).value == (n, hash) && hash != ""
      invariant start == "" && hash != "" ==> exists b :: b in cands - rest && chains(b, n) == Some((n, hash))
      invariant !broken
    {
      var b :| b in rest;
      rest := rest - {b};
      var answer := chains(b, n);
      if answer.None? {
        continue;
      }
      var (number, actual) := answer.value;
      if hash == "" {
        hash := actual;
      }
      if number != n || actual != hash {
        Disagreement(chains, cands, b, n, start, hash);
        return false, hash, current >= number;
      }
    }
    assert AllHave(chains, cands, n, hash);
    agreed := true;
  }

  // One that differs from the hash asked for, or from what another one has.
  lemma Disagreement(chains: Chains, cands: set<nat>, b: nat, n: Uint64, start: string, hash: string)
    requires b in cands && chains(b, n).Some? && chains(b, n).value != (n, hash)
    requires start != "" ==> hash == start
    requires start == "" ==>
      chains(b, n).value.1 == hash || exists c :: c in cands && chains(c, n) == Some((n, hash))
    ensures !Agree(chains, cands, n, start)
  {
    if start == "" {
      forall h ensures !AllHave(chains, cands, n, h) {
      }
    }
  }

  // From the lowest latest block the walk ends at the highest one all agree on.
  ghost predicate Walked(chains: Chains, cands: set<nat>, lowest: Uint64, hash: string, block: Uint64) {
    && block <= lowest
    && Agree(chains, cands, block, if block == lowest then hash else "")
    && (block < lowest ==> !Agree(chains, cands, lowest, hash))
    && forall q: Uint64 :: block < q < lowest ==> !Agree(chains, cands, q, "")
  }

  /** Walk back from the lowest latest block to the highest one all agree on.  A shared genesis stops the walk.  It
      reports a broken consensus exactly when it ends below the block agreed on before. */
  method WalkBack(chains: Chains, cands: set<nat>, lowest: Uint64, lowestHash: string, current: Uint64)
    returns (block: Uint64, broken: bool)
    requires NonEmptyHashes(chains) && lowest > 0 && Agree(chains, cands, 0, "")
    ensures Walked(chains, cands, lowest, lowestHash, block)
    ensures AsAsked(chains) ==> (broken <==> block < lowest && block < current)
  {
    block, broken := lowest, false;
    var hash, hasConsensus := lowestHash, false;
    while !hasConsensus
      invariant block <= lowest
      invariant hash == (if block == lowest then lowestHash else "") || hasConsensus
      invariant block < lowest ==> !Agree(chains, cands, lowest, lowestHash)
      invariant forall q: Uint64 :: block < q < lowest ==> !Agree(chains, cands, q, "")
      invariant hasConsensus ==> Agree(chains, cands, block, if block == lowest then lowestHash else "")
      invariant AsAsked(chains) ==> (broken <==> block < lowest && block < current)
      decreases block, !hasConsensus
    {
      var agreed, found, brk := AskAll(chains, cands, block, hash, current);
      broken := broken || brk;
      if agreed {
        hasConsensus := true;
      } else {
        block := block - 1;
        hash := "";
      }
    }
  }

  // ----- The poller -----

  class ConsensusPoller {
    const backends: seq<BackendConfig>
    const banPeriod: nat
    const maxUpdateThreshold: nat
    const maxBlockLag: Uint64
    const minPeerCount: Uint64
    var states: seq<BackendState>
    var latest: Uint64
    var safe: Uint64
    var finalized: Uint64
    var group: seq<nat>

    constructor (backends: seq<BackendConfig>, banPeriod: nat, maxUpdateThreshold: nat, maxBlockLag: Uint64,
                 minPeerCount: Uint64)
      ensures Valid()
    {
      this.backends, this.banPeriod, this.maxUpdateThreshold := backends, banPeriod, maxUpdateThreshold;
      this.maxBlockLag, this.minPeerCount := maxBlockLag, minPeerCount;
      states := seq(|backends|, _ => BackendState(0, "", 0, 0, 0, false, 0, 0));
      latest, safe, finalized, group := 0, 0, 0, [];
    }

    // Whatever is kept of a backend has passed the tag check.
    predicate Valid()
      reads `states
    {
      |states| == |backends| && forall b :: 0 <= b < |states| ==> states[b].TagsOk()
    }

    method Ban(b: nat, now: int)
      requires |states| == |backends| && b < |states|
      modifies `states
      ensures |states| == |backends| && states == old(states)[b := old(states)[b].(
                bannedUntil := now + banPeriod, latest := 0, safe := 0, finalized := 0)]
      ensures !backends[b].forcedCandidate ==>
        forall healthy, later: int :: later < now + banPeriod ==> !Eligible(b, healthy, later)
    {
      states := states[b := states[b].Banned(now + banPeriod)];
    }

    method SetBackendState(b: nat, p: Probe, now: int) returns (changed: bool)
      requires |states| == |backends| && b < |states|
      modifies `states
      ensures states == old(states)[b := BackendState(
                          p.latest, p.latestHash, p.safe, p.finalized, p.peerCount, p.inSync, now,
                          old(states)[b].bannedUntil)]
      ensures changed <==> old(states)[b].latestHash != p.latestHash
    {
      var bs := states[b];
      changed := bs.latestHash != p.latestHash;
      states := states[b := BackendState(
        p.latest, p.latestHash, p.safe, p.finalized, p.peerCount, p.inSync, now, bs.bannedUntil)];
    }

    // checkExpectedBlockTags: nothing final or safe is taken back, and the tags are in order.
    method CheckExpectedBlockTags(
      latest: Uint64, oldSafe: Uint64, safe: Uint64, oldFinalized: Uint64, finalized: Uint64)
      returns (ok: bool)
      ensures ok <==> oldFinalized <= finalized && oldSafe <= safe && finalized <= safe && safe <= latest
    {
      return finalized >= oldFinalized && safe >= oldSafe && finalized <= safe && safe <= latest;
    }

    /** One round for one backend.  While it is banned nothing happens.  A healthy backend whose tags are in order and
        have not gone back is taken over as it answers, and is then eligible if it is in sync and has enough peers; any
        other one is banned and starts over from zero. */
    method UpdateBackend(b: nat, p: Probe, now: int)
      requires Valid() && b < |backends|
      modifies `states
      ensures Valid()
      ensures forall c :: 0 <= c < |states| && c != b ==> states[c] == old(states)[c]
      ensures now < old(states)[b].bannedUntil ==> states == old(states)
      ensures old(states)[b].bannedUntil <= now ==>
        var before := old(states)[b];
        if p.healthy && before.finalized <= p.finalized && before.safe <= p.safe
           && p.finalized <= p.safe <= p.latest then
          && states[b] == BackendState(
               p.latest, p.latestHash, p.safe, p.finalized, p.peerCount, p.inSync, now, before.bannedUntil)
          && (p.inSync && (backends[b].skipPeerCountCheck || p.peerCount >= minPeerCount) ==>
                forall healthy :: b in healthy ==> Eligible(b, healthy, now))
        else
          && states[b].bannedUntil == now + banPeriod && states[b].latest == states[b].safe == states[b].finalized == 0
          && (!backends[b].forcedCandidate ==>
                forall healthy, later: int :: later < now + banPeriod ==> !Eligible(b, healthy, later))
      ensures (states[b].safe >= old(states)[b].safe && states[b].finalized >= old(states)[b].finalized)
              || states[b].bannedUntil == now + banPeriod
    {
      var bs := states[b];
      if bs.IsBanned(now) {
        return;
      }
      if !p.healthy {
        Ban(b, now);
        return;
      }
      var _ := SetBackendState(b, p, now);
      var expected := CheckExpectedBlockTags(p.latest, bs.safe, p.safe, bs.finalized, p.finalized);
      if !expected {
        Ban(b, now);
      }
    }

    predicate Eligible(b: nat, healthy: set<nat>, now: int)
      requires |states| == |backends| && b < |backends|
      reads `states
    {
      var be, bs := backends[b], states[b];
      be.forcedCandidate
      || (!bs.IsBanned(now) && b in healthy && (be.skipPeerCountCheck || bs.peerCount >= minPeerCount) && bs.inSync
          && bs.lastUpdate + maxUpdateThreshold >= now)
    }

    // The candidate is not too far behind the highest eligible one.
    ghost predicate KeepsUp(b: nat, healthy: set<nat>, now: int)
      requires |states| == |backends| && b < |backends|
      reads `states
    {
      forall c :: 0 <= c < |backends| && Eligible(c, healthy, now) ==>
        states[c].latest <= states[b].latest + maxBlockLag
    }

    // Exactly the eligible backends that do not lag.
    ghost predicate AreCandidates(cands: set<nat>, healthy: set<nat>, now: int)
      requires |states| == |backends|
      reads `states
    {
      forall b :: b in cands <==> 0 <= b < |backends| && Eligible(b, healthy, now) && KeepsUp(b, healthy, now)
    }

    /** Who is a candidate.  One that is not forced has served its ban, is healthy and in sync, has enough peers unless
        exempt, and was updated recently enough.  Of the backends like that, and the forced ones, every one is a
        candidate that is not too far behind any backend at all, and no candidate is too far behind any of them. */
    lemma CandidatesMeaning(cands: set<nat>, healthy: set<nat>, now: int)
      requires Valid() && AreCandidates(cands, healthy, now)
      ensures forall b :: b in cands ==> b < |backends|
      ensures forall b :: b in cands && !backends[b].forcedCandidate ==>
        && states[b].bannedUntil <= now && b in healthy && states[b].inSync
        && (backends[b].skipPeerCountCheck || minPeerCount <= states[b].peerCount)
        && now - states[b].lastUpdate <= maxUpdateThreshold
      ensures forall b: nat | b < |backends| && NeverBehind(b) && backends[b].forcedCandidate :: b in cands
      ensures forall b: nat
        | b < |backends| && NeverBehind(b) && b in healthy && states[b].inSync && states[b].bannedUntil <= now
          && (backends[b].skipPeerCountCheck || minPeerCount <= states[b].peerCount)
          && now - states[b].lastUpdate <= maxUpdateThreshold
        :: b in cands
      ensures forall b, c :: b in cands && c in cands ==> states[c].latest - states[b].latest <= maxBlockLag
      ensures cands == {} <==> forall b :: 0 <= b < |backends| ==> !Eligible(b, healthy, now)
    {
      if b: nat :| b < |backends| && Eligible(b, healthy, now) {
        var top := Highest(healthy, now, b);
        assert top in cands;
      }
    }

    // The backend is not too far behind any other.
    predicate NeverBehind(b: nat)
      requires |states| == |backends| && b < |backends|
      reads `states
    {
      forall c :: 0 <= c < |backends| ==> states[c].latest - states[b].latest <= maxBlockLag
    }

    // An eligible backend that is not behind any other.
    lemma Highest(healthy: set<nat>, now: int, b: nat) returns (top: nat)
      requires |states| == |backends| && b < |backends| && Eligible(b, healthy, now)
      ensures top < |backends| && Eligible(top, healthy, now)
      ensures forall c :: 0 <= c < |backends| && Eligible(c, healthy, now) ==> states[c].latest <= states[top].latest
    {
      top := b;
      for c := 0 to |backends|
        invariant top < |backends| && Eligible(top, healthy, now)
        invariant forall d :: 0 <= d < c && Eligible(d, healthy, now) ==> states[d].latest <= states[top].latest
      {
        if Eligible(c, healthy, now) && states[c].latest > states[top].latest {
          top := c;
        }
      }
    }

    /** The candidates are exactly the eligible backends that do not lag. */
    method GetConsensusCandidates(healthy: set<nat>, now: int) returns (cands: set<nat>)
      requires Valid()
      ensures AreCandidates(cands, healthy, now)
    {
      var eligible: set<nat> := {};
      for b := 0 to |backends|
        invariant forall c :: c in eligible <==> 0 <= c < b && Eligible(c, healthy, now)
      {
        var be, bs := backends[b], states[b];
        if be.forcedCandidate {
          eligible := eligible + {b};
          continue;
        }
        if bs.IsBanned(now) {
          continue;
        }
        if b !in healthy {
          continue;
        }
        if !be.skipPeerCountCheck && bs.peerCount < minPeerCount {
          continue;
        }
        if !bs.inSync {
          continue;
        }
        if bs.lastUpdate + maxUpdateThreshold < now {
          continue;
        }
        eligible := eligible + {b};
      }
      var highest: Uint64, rest := 0, eligible;
      while rest != {}
        invariant rest <= eligible
        invariant forall c :: c in eligible - rest ==> states[c].latest <= highest
        invariant highest == 0 || exists c :: c in eligible && states[c].latest == highest
      {
        var b :| b in rest;
        rest := rest - {b};
        if states[b].latest > highest {
          highest := states[b].latest;
        }
      }
      var lagging: set<nat> := {};
      rest := eligible;
      while rest != {}
        invariant rest <= eligible && lagging <= eligible
        invariant forall c :: c in eligible - rest ==> (c in lagging <==> highest - states[c].latest > maxBlockLag)
        invariant forall c :: c in rest ==> c !in lagging
      {
        var b :| b in rest;
        rest := rest - {b};
        if highest - states[b].latest > maxBlockLag {
          lagging := lagging + {b};
        }
      }
      cands := eligible - lagging;
    }

    // The running minima over the candidates, visited in some order.
    method LowestOf(cands: set<nat>)
      returns (
        lowest: Uint64, hash: string, lowestSafe: Uint64, lowestFinalized: Uint64, ghost order: seq<nat>, ghost at: nat)
      requires Valid() && forall b :: b in cands ==> b < |states|
      ensures Visits(order, cands) && forall i :: 0 <= i < |order| ==> order[i] < |states|
      ensures lowest == Lowest(Heights(states, order, (s: BackendState) => s.latest))
      ensures lowestSafe == Lowest(Safe(states, order)) && lowestFinalized == Lowest(Finalized(states, order))
      ensures cands != {} ==> at in cands && states[at].latest == lowest && states[at].latestHash == hash
    {
      hide Lowest, Visits;
      assert Lowest([]) == 0 && Visits([], {}) by { NothingVisited(); }
      lowest, hash, lowestSafe, lowestFinalized, order, at := 0, "", 0, 0, [], 0;
      var rest := cands;
      assert cands - rest == {};
      while rest != {}
        invariant rest <= cands && Visits(order, cands - rest)
        invariant forall i :: 0 <= i < |order| ==> order[i] < |states|
        invariant lowest == Lowest(Heights(states, order, (s: BackendState) => s.latest))
        invariant lowestSafe == Lowest(Safe(states, order)) && lowestFinalized == Lowest(Finalized(states, order))
        invariant rest != cands ==> at in cands - rest && states[at].latest == lowest && states[at].latestHash == hash
        invariant rest == cands ==> lowest == 0
      {
        var b :| b in rest;
        var bs := states[b];
        VisitsNext(order, cands, rest, b);
        NextHeight(order, b, (s: BackendState) => s.latest);
        NextHeight(order, b, (s: BackendState) => s.safe);
        NextHeight(order, b, (s: BackendState) => s.finalized);
        if lowest == 0 || bs.latest < lowest {
          lowest, hash, at := bs.latest, bs.latestHash, b;
        }
        if lowestFinalized == 0 || bs.finalized < lowestFinalized {
          lowestFinalized := bs.finalized;
        }
        if lowestSafe == 0 || bs.safe < lowestSafe {
          lowestSafe := bs.safe;
        }
        rest := rest - {b};
        order := order + [b];
      }
      assert cands - rest == cands;
    }

    lemma NothingVisited()
      ensures Lowest([]) == 0 && Visits([], {})
    {
    }

    lemma VisitsNext(order: seq<nat>, cands: set<nat>, rest: set<nat>, b: nat)
      requires Visits(order, cands - rest) && b in rest && rest <= cands
      ensures Visits(order + [b], cands - (rest - {b}))
    {
    }

    lemma NextHeight(order: seq<nat>, b: nat, height: BackendState -> Uint64)
      requires b < |states| && forall i :: 0 <= i < |order| ==> order[i] < |states|
      ensures forall i :: 0 <= i < |order + [b]| ==> (order + [b])[i] < |states|
      ensures var before, n := Lowest(Heights(states, order, height)), height(states[b]);
        Lowest(Heights(states, order + [b], height)) == if before == 0 || n < before then n else before
    {
      var hs := Heights(states, order + [b], height);
      assert hs[..|hs| - 1] == Heights(states, order, height);
    }

    // Every candidate answers with the latest block known of it.
    ghost predicate UpToDate(chains: Chains, cands: set<nat>)
      reads `states
    {
      forall b :: b in cands ==>
        b < |states| && chains(b, states[b].latest) == Some((states[b].latest, states[b].latestHash))
    }

    /** Publish the consensus.  With positive heights and a shared genesis the block published is the highest one,
        not above any candidate's latest, that all candidates agree on; it is known when the finalized number is not
        above the safe one; and the group is exactly the candidates. */
    method UpdateBackendGroupConsensus(chains: Chains, healthy: set<nat>, now: int)
      returns (ghost cands: set<nat>, ghost order: seq<nat>, ghost at: nat, broken: bool)
      requires Valid() && NonEmptyHashes(chains) && SharedGenesis(chains)
      modifies this
      ensures Valid() && states == old(states)
      ensures AreCandidates(cands, healthy, now)
      ensures (forall b :: b in group <==> b in cands) && forall i, j :: 0 <= i < j < |group| ==> group[i] < group[j]
      ensures Visits(order, cands) && forall i :: 0 <= i < |order| ==> order[i] < |states|
      ensures safe == Lowest(Safe(states, order)) && finalized == Lowest(Finalized(states, order))
      ensures var lowest := Lowest(Heights(states, order, (s: BackendState) => s.latest));
        if lowest == 0 then latest == 0 && !broken
        else
          && at in cands && states[at].latest == lowest
          && Walked(chains, cands, lowest, states[at].latestHash, latest)
          && (AsAsked(chains) ==> (broken <==> latest < lowest && latest < old(latest)))
      ensures cands != {} && (forall b :: b in cands ==> states[b].latest > 0) && UpToDate(chains, cands) ==>
        HighestAgreed(chains, cands, latest)
      ensures finalized <= safe <==> SomeBelowAll(Finalized(states, order), Safe(states, order))
      ensures Known(states, cands) && (NeverAbove(states, cands) ==> finalized <= safe)
    {
      hide Agree, Lowest, Eligible, KeepsUp, UpToDate, NonEmptyHashes, Visits, Walked, HighestAgreed;
      hide NeverAbove, SomeBelowAll;
      var found := GetConsensusCandidates(healthy, now);
      cands := found;
      var lowest, hash, lowestSafe, lowestFinalized;
      lowest, hash, lowestSafe, lowestFinalized, order, at := LowestOf(found);
      var proposed := lowest;
      broken := false;
      if proposed > 0 {
        GenesisAgrees(chains, found);
        proposed, broken := WalkBack(chains, found, lowest, hash, latest);
      }
      if cands != {} {
        WalkEndsHighest(chains, cands, order, at, proposed);
      } else {
        NobodyVisited(order, (s: BackendState) => s.latest);
      }
      LowestTags(cands, order);
      latest, safe, finalized := proposed, lowestSafe, lowestFinalized;
      SetGroup(found);
    }

    // The candidates in the order of the backends.
    method SetGroup(cands: set<nat>)
      requires forall b :: b in cands ==> b < |backends|
      modifies `group
      ensures (forall b :: b in group <==> b in cands) && forall i, j :: 0 <= i < j < |group| ==> group[i] < group[j]
    {
      group := [];
      for b := 0 to |backends|
        invariant forall c :: c in group <==> 0 <= c < b && c in cands
        invariant forall i :: 0 <= i < |group| ==> group[i] < b
        invariant forall i, j :: 0 <= i < j < |group| ==> group[i] < group[j]
      {
        if b in cands {
          group := group + [b];
        }
      }
    }

    lemma NobodyVisited(order: seq<nat>, height: BackendState -> Uint64)
      requires Visits(order, {}) && forall i :: 0 <= i < |order| ==> order[i] < |states|
      ensures Lowest(Heights(states, order, height)) == 0
    {
      assert forall i :: 0 <= i < |order| ==> order[i] in order;
    }

    // All candidates agree on the block and on none above it that all of them have reached.
    ghost predicate HighestAgreed(chains: Chains, cands: set<nat>, block: Uint64)
      requires forall b :: b in cands ==> b < |states|
      reads `states
    {
      && Agree(chains, cands, block, "")
      && (forall b :: b in cands ==> block <= states[b].latest)
      && forall q: Uint64 :: q > block && (forall b :: b in cands ==> q <= states[b].latest) ==>
           !Agree(chains, cands, q, "")
    }

    // What the walk found is the highest block all agree on.
    lemma WalkEndsHighest(chains: Chains, cands: set<nat>, order: seq<nat>, at: nat, block: Uint64)
      requires Valid() && cands != {} && Visits(order, cands) && forall i :: 0 <= i < |order| ==> order[i] < |states|
      requires (forall b :: b in cands ==> b < |states|) && at in cands
      requires var lowest := Lowest(Heights(states, order, (s: BackendState) => s.latest));
        states[at].latest == lowest && (lowest > 0 ==> Walked(chains, cands, lowest, states[at].latestHash, block))
      ensures (forall b :: b in cands ==> states[b].latest > 0) && UpToDate(chains, cands) ==>
        HighestAgreed(chains, cands, block)
    {
      hide Agree, Lowest;
      if (forall b :: b in cands ==> states[b].latest > 0) && UpToDate(chains, cands) {
        var heights := Heights(states, order, (s: BackendState) => s.latest);
        var lowest := Lowest(heights);
        assert at in order;
        LowestIsLeast(heights);
        forall b | b in cands ensures lowest <= states[b].latest {
          assert b in order;
          var i :| 0 <= i < |order| && order[i] == b;
          assert heights[i] == states[b].latest;
        }
        StartHashIsAgreement(chains, cands, at, lowest, states[at].latestHash);
      }
    }

    lemma LowestTags(cands: set<nat>, order: seq<nat>)
      requires Valid() && Visits(order, cands) && forall b :: b in cands ==> b < |states|
      ensures forall i :: 0 <= i < |order| ==> order[i] < |states|
      ensures var fs, ss := Finalized(states, order), Safe(states, order);
        Lowest(fs) <= Lowest(ss) <==> SomeBelowAll(fs, ss)
      ensures Known(states, cands)
      ensures NeverAbove(states, cands) ==> Lowest(Finalized(states, order)) <= Lowest(Safe(states, order))
    {
      hide Lowest, Visits, NeverAbove, SomeBelowAll, AfterZero;
      VisitsKnown(states, order, cands);
      FinalizedBelowSafe(Finalized(states, order), Safe(states, order));
      if NeverAbove(states, cands) {
        NeverAboveSuffices(states, cands, order);
      }
    }
  }
}
