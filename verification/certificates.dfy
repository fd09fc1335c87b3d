// Stake-weighted certificates: how they are collected and how they are verified (common/bls.py).

module Certificates {
  import opened Batches

  datatype Node = Node(id: NodeId, stake: real)

  /** The attesting nodes and the share of stake, in percent, that a certificate needs. */
  datatype Network = Network(attesting: seq<Node>, threshold: real) {

    ghost predicate Valid() {
      && attesting != []
      && (forall i | 0 <= i < |attesting| :: attesting[i].stake > 0.0)
      && (forall i, j | 0 <= i < j < |attesting| :: attesting[i].id != attesting[j].id)
    }

    function Ids(): set<NodeId> {
      set i | 0 <= i < |attesting| :: attesting[i].id
    }

    function Total(): real {
      Stake(attesting, Ids())
    }

    function StakeOf(members: set<NodeId>): real {
      Stake(attesting, members)
    }
  }

  /** The stake of the nodes that belong to a set. */
  function Stake(nodes: seq<Node>, members: set<NodeId>): real {
    if nodes == [] then 0.0
    else (if nodes[0].id in members then nodes[0].stake else 0.0) + Stake(nodes[1..], members)
  }

  /** Adds up a list of node ids one by one, as the verifier does with the nonsigners it was given. */
  function ListedStake(net: Network, ids: seq<NodeId>): real {
    if ids == [] then 0.0 else ListedStake(net, ids[..|ids| - 1]) + net.StakeOf({ids[|ids| - 1]})
  }

  lemma {:induction false} StakeModular(nodes: seq<Node>, a: set<NodeId>, b: set<NodeId>)
    ensures Stake(nodes, a) + Stake(nodes, b) == Stake(nodes, a + b) + Stake(nodes, a * b)
  {
    if nodes != [] {
      StakeModular(nodes[1..], a, b);
    }
  }

  lemma {:induction false} StakeEmpty(nodes: seq<Node>)
    ensures Stake(nodes, {}) == 0.0
  {
    if nodes != [] {
      StakeEmpty(nodes[1..]);
    }
  }

  lemma {:induction false} StakeMonotone(nodes: seq<Node>, a: set<NodeId>, b: set<NodeId>)
    requires forall i | 0 <= i < |nodes| :: nodes[i].stake > 0.0
    requires forall i | 0 <= i < |nodes| :: nodes[i].id in a ==> nodes[i].id in b
    ensures 0.0 <= Stake(nodes, a) <= Stake(nodes, b)
  {
    if nodes != [] {
      assert forall i | 0 <= i < |nodes[1..]| :: nodes[1..][i] == nodes[i + 1];
      StakeMonotone(nodes[1..], a, b);
    }
  }

  /** A set with positive stake contains an attesting node. */
  lemma {:induction false} StakeWitness(nodes: seq<Node>, a: set<NodeId>, b: set<NodeId>) returns (id: NodeId)
    requires forall i | 0 <= i < |nodes| :: nodes[i].stake > 0.0
    requires Stake(nodes, a) > Stake(nodes, b)
    ensures id in a && id !in b
  {
    if nodes[0].id in a && nodes[0].id !in b {
      id := nodes[0].id;
    } else {
      assert forall i | 0 <= i < |nodes[1..]| :: nodes[1..][i] == nodes[i + 1];
      id := StakeWitness(nodes[1..], a, b);
    }
  }

  lemma TotalPositive(net: Network)
    requires net.Valid()
    ensures net.Total() > 0.0
  {
    assert forall i | 0 <= i < |net.attesting[1..]| :: net.attesting[1..][i] == net.attesting[i + 1];
    assert net.attesting[0].id in net.Ids();
    StakeMonotone(net.attesting[1..], {}, net.Ids());
  }

  lemma {:induction false} ListedStakeIsStake(net: Network, ids: seq<NodeId>)
    requires forall i, j | 0 <= i < j < |ids| :: ids[i] != ids[j]
    ensures ListedStake(net, ids) == net.StakeOf(set id | id in ids)
  {
    if ids == [] {
      StakeEmpty(net.attesting);
      assert (set id | id in ids) == {};
    } else {
      var n := |ids| - 1;
      var last, rest := {ids[n]}, set id | id in ids[..n];
      ListedStakeIsStake(net, ids[..n]);
      StakeModular(net.attesting, rest, last);
      assert rest + last == (set id | id in ids) by {
        assert ids == ids[..n] + [ids[n]];
      }
      assert rest * last == {};
      StakeEmpty(net.attesting);
    }
  }

  /** What the verifier does: raise on an unknown nonsigner, or accept or refuse. */
  datatype Verdict = Raises | Refuses | Accepts

  predicate Distinct(ids: seq<NodeId>) {
    forall i, j | 0 <= i < j < |ids| :: ids[i] != ids[j]
  }

  function Signers(net: Network, nonsigners: seq<NodeId>): set<NodeId> {
    net.Ids() - set id | id in nonsigners
  }

  /** An aggregated signature checks against the sum of keys left after the nonsigners' are subtracted. */
  predicate SignatureMatches(net: Network, data: SignatureData) {
    && Distinct(data.cert.nonsigners)
    && data.cert.signature == set id | id in Signers(net, data.cert.nonsigners) :: Signature(id, data.point)
  }

  function Percent(net: Network, stake: real): real
    requires net.Total() != 0.0
  {
    100.0 * stake / net.Total()
  }

  lemma PercentAdds(net: Network, a: real, b: real)
    requires net.Total() > 0.0
    ensures Percent(net, a + b) == Percent(net, a) + Percent(net, b)
    ensures a <= b ==> Percent(net, a) <= Percent(net, b)
  {
    DivisionAdds(100.0 * a, 100.0 * b, net.Total());
    if a <= b {
      DivisionAdds(100.0 * a, 100.0 * (b - a), net.Total());
    }
  }

  lemma DivisionAdds(a: real, b: real, d: real)
    requires d > 0.0
    ensures (a + b) / d == a / d + b / d
    ensures b >= 0.0 ==> b / d >= 0.0
  {
    var x, y, z := a / d, b / d, (a + b) / d;
    assert x * d == a && y * d == b && z * d == a + b;
    assert (z - x - y) * d == z * d - x * d - y * d;
  }

  predicate HasQuorum(net: Network, nonsignersStake: real)
    requires net.Total() != 0.0
  {
    Percent(net, nonsignersStake) <= 100.0 - net.threshold
  }

  /** The nonsigners leave a quorum exactly if the others hold the threshold share. */
  lemma QuorumMeaning(net: Network, part: real, rest: real)
    requires net.Total() > 0.0 && part + rest == net.Total()
    ensures HasQuorum(net, rest) <==> Percent(net, part) >= net.threshold
  {
    PercentAdds(net, part, rest);
    assert 100.0 * net.Total() / net.Total() == 100.0;
  }

  /** is_sync_point_signature_verified */
  function Verify(net: Network, data: SignatureData): Verdict
    requires net.Valid()
  {
    TotalPositive(net);
    if exists id :: id in data.cert.nonsigners && id !in net.Ids() then Raises
    else if !HasQuorum(net, ListedStake(net, data.cert.nonsigners)) then Refuses
    else if SignatureMatches(net, data) then Accepts
    else Refuses
  }

  /** Attesting nodes with the threshold share of the stake. */
  ghost predicate IsQuorum(net: Network, members: set<NodeId>) {
    members <= net.Ids() && 100.0 * net.StakeOf(members) >= net.threshold * net.Total()
  }

  /** What the verifier accepts: each nonsigner is an attesting node and named once, the other attesting nodes hold the
      threshold share of the stake, and each of them, and nobody else, has signed this sync point.  It raises an
      exception at a nonsigner that is not attesting. */
  lemma AcceptsExactly(net: Network, data: SignatureData)
    requires net.Valid()
    ensures Verify(net, data) == Raises <==> exists id :: id in data.cert.nonsigners && id !in net.Ids()
    ensures var out := data.cert.nonsigners;
      Verify(net, data) == Accepts <==>
        && (forall i, j | 0 <= i < j < |out| :: out[i] != out[j])
        && (forall id | id in out :: id in net.Ids())
        && 100.0 * net.StakeOf(set id | id in net.Ids() && id !in out) >= net.threshold * net.Total()
        && (forall s :: s in data.cert.signature <==> s.node in net.Ids() && s.node !in out && s.point == data.point)
  {
    var out := data.cert.nonsigners;
    var signers := Signers(net, out);
    TotalPositive(net);
    assert signers == set id | id in net.Ids() && id !in out;
    if Distinct(out) && forall id | id in out :: id in net.Ids() {
      ListedLeaveQuorum(net, out);
      SignatureOfAll(net, data);
    }
  }

  lemma SignatureOfAll(net: Network, data: SignatureData)
    ensures var signers := Signers(net, data.cert.nonsigners);
      data.cert.signature == (set id | id in signers :: Signature(id, data.point)) <==>
      forall s :: s in data.cert.signature <==> s.node in signers && s.point == data.point
  {
    var signers := Signers(net, data.cert.nonsigners);
    var full := set id | id in signers :: Signature(id, data.point);
    assert forall s :: s in full <==> s.node in signers && s.point == data.point by {
      forall s: Signature | s.node in signers && s.point == data.point
        ensures s in full
      {
        assert s == Signature(s.node, data.point);
      }
    }
  }

  /** Distinct attesting nonsigners, listed in whatever order, leave a quorum exactly if the others are one. */
  lemma ListedLeaveQuorum(net: Network, out: seq<NodeId>)
    requires net.Valid() && net.Total() > 0.0 && Distinct(out) && forall id | id in out :: id in net.Ids()
    ensures var signers := Signers(net, out);
      && (HasQuorum(net, ListedStake(net, out)) <==> Percent(net, net.StakeOf(signers)) >= net.threshold)
      && (HasQuorum(net, ListedStake(net, out)) <==> 100.0 * net.StakeOf(signers) >= net.threshold * net.Total())
  {
    var members := set id | id in out;
    ListedStakeIsStake(net, out);
    StakeComplement(net, members);
    QuorumMeaning(net, net.StakeOf(Signers(net, out)), net.StakeOf(members));
    PercentMeaning(net, net.StakeOf(Signers(net, out)));
  }

  /** The order in which the nonsigners are listed makes no difference. */
  lemma OrderIrrelevant(net: Network, a: SignatureData, b: SignatureData)
    requires net.Valid() && a.point == b.point && a.cert.signature == b.cert.signature
    requires multiset(a.cert.nonsigners) == multiset(b.cert.nonsigners)
    ensures Verify(net, a) == Verify(net, b)
  {
    var s, t := a.cert.nonsigners, b.cert.nonsigners;
    SameMembers(s, t);
    AcceptsExactly(net, a);
    AcceptsExactly(net, b);
    DistinctCount(s);
    DistinctCount(t);
    assert (set id | id in net.Ids() && id !in s) == set id | id in net.Ids() && id !in t;
  }

  lemma SameMembers(s: seq<NodeId>, t: seq<NodeId>)
    requires multiset(s) == multiset(t)
    ensures forall id :: id in s <==> id in t
  {
    forall id
      ensures id in s <==> id in t
    {
      assert id in s <==> id in multiset(s);
      assert id in t <==> id in multiset(t);
    }
  }

  lemma {:induction false} DistinctCount(s: seq<NodeId>)
    ensures Distinct(s) <==> forall id :: multiset(s)[id] <= 1
  {
    if s != [] {
      var n := |s| - 1;
      DistinctCount(s[..n]);
      assert s == s[..n] + [s[n]];
      var rest := multiset(s[..n]);
      assert multiset(s) == rest + multiset{s[n]};
      assert forall id :: multiset(s)[id] == rest[id] + if id == s[n] then 1 else 0;
      assert Distinct(s) <==> Distinct(s[..n]) && s[n] !in s[..n];
      assert s[n] in s[..n] <==> rest[s[n]] > 0;
      if !Distinct(s[..n]) {
        var id :| rest[id] > 1;
        assert multiset(s)[id] > 1;
      }
    }
  }

  /** An accepted certificate carries the threshold share of the total stake, one signature per signer. */
  lemma AcceptedStake(net: Network, data: SignatureData)
    requires net.Valid() && Verify(net, data) == Accepts
    ensures var signers := Signers(net, data.cert.nonsigners);
      && IsQuorum(net, signers)
      && signers == (set s | s in data.cert.signature :: s.node)
      && (forall s | s in data.cert.signature :: s == Signature(s.node, data.point))
  {
    var signers := Signers(net, data.cert.nonsigners);
    AcceptsExactly(net, data);
    assert signers == set id | id in net.Ids() && id !in data.cert.nonsigners;
    assert signers == (set s | s in data.cert.signature :: s.node) by {
      forall id | id in signers
        ensures id in (set s | s in data.cert.signature :: s.node)
      {
        assert Signature(id, data.point) in data.cert.signature;
      }
    }
  }

  /** Two certificates share signers holding at least 2T - 100 percent of the stake. */
  lemma QuorumIntersection(net: Network, a: SignatureData, b: SignatureData)
    requires net.Valid() && Verify(net, a) == Accepts && Verify(net, b) == Accepts
    ensures 100.0 * net.StakeOf(Signers(net, a.cert.nonsigners) * Signers(net, b.cert.nonsigners))
            >= (2.0 * net.threshold - 100.0) * net.Total()
  {
    var s, t := Signers(net, a.cert.nonsigners), Signers(net, b.cert.nonsigners);
    AcceptedStake(net, a);
    AcceptedStake(net, b);
    StakeModular(net.attesting, s, t);
    StakeMonotone(net.attesting, s + t, net.Ids());
  }

  /** What a node answered to a sign request, if it answered. */
  datatype Reply = Reply(node: NodeId, answer: Option<Signature>)

  /** request_signature: an answer only counts when it verifies under that node's own key. */
  predicate Verifies(reply: Reply, point: SyncPoint) {
    reply.answer == Some(Signature(reply.node, point))
  }

  /** The replies in the order they complete: every asyncio.wait hands over one group, before the timeout. */
  type Waves = seq<seq<Reply>>

  /** Each asked node completes at most once. */
  ghost predicate WavesFrom(waves: Waves, asked: set<NodeId>) {
    && (forall i, j | 0 <= i < |waves| && 0 <= j < |waves[i]| :: waves[i][j].node in asked)
    && (forall i, j, k, l | 0 <= i < |waves| && 0 <= j < |waves[i]| && 0 <= k < |waves| && 0 <= l < |waves[k]| ::
          waves[i][j].node == waves[k][l].node ==> i == k && j == l)
  }

  ghost function ValidIn(wave: seq<Reply>, point: SyncPoint): set<NodeId> {
    set j | 0 <= j < |wave| && Verifies(wave[j], point) :: wave[j].node
  }

  ghost function ValidRepliers(waves: Waves, point: SyncPoint): set<NodeId> {
    if waves == [] then {} else ValidRepliers(waves[..|waves| - 1], point) + ValidIn(waves[|waves| - 1], point)
  }

  lemma StakeAddOne(net: Network, members: set<NodeId>, id: NodeId)
    requires id !in members
    ensures net.StakeOf(members + {id}) == net.StakeOf(members) + net.StakeOf({id})
  {
    StakeModular(net.attesting, members, {id});
    assert members * {id} == {};
    StakeEmpty(net.attesting);
  }

  lemma {:induction false} ValidRepliersAsked(waves: Waves, asked: set<NodeId>, point: SyncPoint, k: nat)
    requires WavesFrom(waves, asked) && k <= |waves|
    ensures ValidRepliers(waves[..k], point) <= ValidRepliers(waves, point) <= asked
    ensures forall i, j | k <= i < |waves| && 0 <= j < |waves[i]| ::
              waves[i][j].node !in ValidRepliers(waves[..k], point)
    decreases |waves|
  {
    if waves != [] {
      var n := |waves| - 1;
      if k == |waves| {
        assert waves[..k] == waves;
        if k > 0 { ValidRepliersAsked(waves[..n], asked, point, n); }
      } else {
        ValidRepliersAsked(waves[..n], asked, point, k);
        assert waves[..n][..k] == waves[..k];
        NotYet(waves, asked, point, k, n);
      }
    }
  }

  lemma {:induction false} NotYet(waves: Waves, asked: set<NodeId>, point: SyncPoint, k: nat, i: nat)
    requires WavesFrom(waves, asked) && k <= i < |waves|
    ensures forall j | 0 <= j < |waves[i]| :: waves[i][j].node !in ValidRepliers(waves[..k], point)
  {
    if k > 0 {
      NotYet(waves, asked, point, k - 1, i);
      assert waves[..k][..k - 1] == waves[..k - 1];
    }
  }

  /** How many groups are waited for: until the stake of those who answered reaches the threshold. */
  ghost function Awaited(net: Network, ownStake: real, point: SyncPoint, waves: Waves, k: nat): (used: nat)
    requires net.Total() != 0.0 && k <= |waves|
    ensures k <= used <= |waves|
    decreases |waves| - k
  {
    if k == |waves| || Percent(net, ownStake + net.StakeOf(ValidRepliers(waves[..k], point))) >= net.threshold then k
    else Awaited(net, ownStake, point, waves, k + 1)
  }

  /** No group is awaited once the threshold is held. */
  lemma {:induction false} AwaitedIsFirst(net: Network, ownStake: real, point: SyncPoint, waves: Waves, k: nat)
    requires net.Total() != 0.0 && k <= |waves|
    ensures forall j | k <= j < Awaited(net, ownStake, point, waves, k) ::
              Percent(net, ownStake + net.StakeOf(ValidRepliers(waves[..j], point))) < net.threshold
    decreases |waves| - k
  {
    if k < Awaited(net, ownStake, point, waves, k) {
      AwaitedIsFirst(net, ownStake, point, waves, k + 1);
    }
  }

  /** Those who have answered by then. */
  ghost function Answered(net: Network, own: NodeId, point: SyncPoint, waves: Waves): set<NodeId>
    requires net.Total() != 0.0
  {
    ValidRepliers(waves[..Awaited(net, net.StakeOf({own}), point, waves, 0)], point)
  }

  /** gather_signatures: collect group after group until the stake reaches the threshold. */
  method GatherSignatures(net: Network, ownStake: real, point: SyncPoint, asked: set<NodeId>, waves: Waves)
    returns (signatures: map<NodeId, Signature>, percent: real, used: nat)
    requires net.Valid() && WavesFrom(waves, asked)
    ensures net.Total() > 0.0 && used <= |waves|
    ensures signatures.Keys == ValidRepliers(waves[..used], point)
    ensures forall id | id in signatures :: signatures[id] == Signature(id, point)
    ensures percent == Percent(net, ownStake + net.StakeOf(signatures.Keys))
    ensures percent >= net.threshold || used == |waves|
    ensures used == Awaited(net, ownStake, point, waves, 0)
  {
    TotalPositive(net);
    signatures, percent, used := map[], Percent(net, ownStake), 0;
    StakeEmpty(net.attesting);
    while used < |waves| && percent < net.threshold
      invariant 0 <= used <= |waves|
      invariant signatures.Keys == ValidRepliers(waves[..used], point)
      invariant forall id | id in signatures :: signatures[id] == Signature(id, point)
      invariant percent == Percent(net, ownStake + net.StakeOf(signatures.Keys))
      invariant Awaited(net, ownStake, point, waves, 0) == Awaited(net, ownStake, point, waves, used)
    {
      NotYet(waves, asked, point, used, used);
      signatures, percent := TakeWave(net, ownStake, point, waves[used], signatures, percent);
      assert waves[..used + 1][..used] == waves[..used];
      used := used + 1;
    }
  }

  /** The inner loop over one group of completed tasks. */
  method TakeWave(net: Network, ownStake: real, point: SyncPoint, wave: seq<Reply>,
                  before: map<NodeId, Signature>, percentBefore: real)
    returns (signatures: map<NodeId, Signature>, percent: real)
    requires net.Total() > 0.0
    requires forall j | 0 <= j < |wave| :: wave[j].node !in before
    requires forall j, l | 0 <= j < l < |wave| :: wave[j].node != wave[l].node
    requires forall id | id in before :: before[id] == Signature(id, point)
    requires percentBefore == Percent(net, ownStake + net.StakeOf(before.Keys))
    ensures signatures.Keys == before.Keys + ValidIn(wave, point)
    ensures forall id | id in signatures :: signatures[id] == Signature(id, point)
    ensures percent == Percent(net, ownStake + net.StakeOf(signatures.Keys))
  {
    signatures, percent := before, percentBefore;
    var j := 0;
    while j < |wave|
      invariant 0 <= j <= |wave|
      invariant signatures.Keys == before.Keys + ValidIn(wave[..j], point)
      invariant forall id | id in signatures :: signatures[id] == Signature(id, point)
      invariant percent == Percent(net, ownStake + net.StakeOf(signatures.Keys))
    {
      var reply := wave[j];
      OneMoreReply(wave, point, j);
      if Verifies(reply, point) {
        ghost var keys := signatures.Keys;
        OneMoreSigner(net, ownStake, signatures, reply.node, reply.answer.value);
        signatures := signatures[reply.node := reply.answer.value];
        assert signatures.Keys == keys + {reply.node};
        percent := percent + Percent(net, net.StakeOf({reply.node}));
      }
      j := j + 1;
    }
    assert wave[..|wave|] == wave;
  }

  lemma OneMoreReply(wave: seq<Reply>, point: SyncPoint, j: nat)
    requires j < |wave|
    ensures ValidIn(wave[..j + 1], point) == ValidIn(wave[..j], point) +
              if Verifies(wave[j], point) then {wave[j].node} else {}
  {
    assert wave[..j + 1] == wave[..j] + [wave[j]];
  }

  lemma OneMoreSigner(net: Network, ownStake: real, signatures: map<NodeId, Signature>, id: NodeId,
                      signature: Signature)
    requires net.Total() > 0.0 && id !in signatures
    ensures signatures[id := signature].Keys == signatures.Keys + {id}
    ensures Percent(net, ownStake + net.StakeOf(signatures.Keys + {id})) ==
            Percent(net, ownStake + net.StakeOf(signatures.Keys)) + Percent(net, net.StakeOf({id}))
  {
    StakeAddOne(net, signatures.Keys, id);
    PercentAdds(net, ownStake + net.StakeOf(signatures.Keys), net.StakeOf({id}));
  }

  function Pick(nodes: seq<Node>, members: set<NodeId>): (ids: seq<NodeId>)
    ensures forall id :: id in ids <==> exists i :: 0 <= i < |nodes| && nodes[i].id == id && id in members
    ensures |ids| <= |nodes|
  {
    if nodes == [] then []
    else
      var n := |nodes| - 1;
      var rest := Pick(nodes[..n], members);
      if nodes[n].id in members then rest + [nodes[n].id] else rest
  }

  lemma {:induction false} PickDistinct(nodes: seq<Node>, members: set<NodeId>)
    requires forall i, j | 0 <= i < j < |nodes| :: nodes[i].id != nodes[j].id
    ensures Distinct(Pick(nodes, members))
  {
    if nodes != [] {
      PickDistinct(nodes[..|nodes| - 1], members);
    }
  }

  /** gather_and_aggregate_signatures, run by the node own.  None also stands for the KeyError at an asked
      node that is not attesting. */
  method GatherAndAggregate(net: Network, own: NodeId, point: SyncPoint, asked: set<NodeId>, waves: Waves)
    returns (result: Option<Certificate>)
    requires net.Valid() && WavesFrom(waves, asked)
    // Nothing is returned unless the asked nodes can reach the threshold and those who answered did.
    ensures net.Total() > 0.0
    ensures result.Some? <==>
            && asked <= net.Ids()
            && Percent(net, net.StakeOf(asked) + net.StakeOf({own})) >= net.threshold
            && Percent(net, net.StakeOf({own}) + net.StakeOf(ValidRepliers(waves, point))) >= net.threshold
    // What is returned is refused exactly if the collecting node was among those who answered, so that
    // its stake was counted twice, and their stake alone falls short.
    ensures result.Some? ==>
              var answered := Answered(net, own, point, waves);
              Verify(net, SignatureData(point, result.value)) ==
              if own in answered && Percent(net, net.StakeOf(answered)) < net.threshold then Refuses else Accepts
    ensures Answered(net, own, point, waves) <= asked
  {
    TotalPositive(net);
    ValidRepliersAsked(waves, asked, point, Awaited(net, net.StakeOf({own}), point, waves, 0));
    if !(asked <= net.Ids()) || Percent(net, net.StakeOf(asked) + net.StakeOf({own})) < net.threshold {
      return None;
    }
    var signatures, percent, used := GatherSignatures(net, net.StakeOf({own}), point, asked, waves);
    EnoughGathered(net, own, asked, waves, point, used);
    if percent < net.threshold {
      return None;
    }
    OwnShare(net, own, signatures.Keys);
    var cert := Aggregate(net, own, point, signatures);
    SignersStake(net, own, signatures.Keys, Signers(net, cert.nonsigners));
    return Some(cert);
  }

  lemma SignersStake(net: Network, own: NodeId, replied: set<NodeId>, signers: set<NodeId>)
    requires net.Valid() && signers == replied + if net.StakeOf({own}) > 0.0 then {own} else {}
    ensures own in replied ==> signers == replied
    ensures own !in replied ==> net.StakeOf(signers) == net.StakeOf({own}) + net.StakeOf(replied)
  {
    OwnShare(net, own, replied);
    assert replied + {} == replied;
  }

  /** The members of a set, in no particular order. */
  method Listed(members: set<NodeId>) returns (ids: seq<NodeId>)
    ensures Distinct(ids) && (set id | id in ids) == members
  {
    var rest := members;
    ids := [];
    while rest != {}
      invariant rest <= members && Distinct(ids)
      invariant forall id :: id in ids <==> id in members && id !in rest
      decreases |rest|
    {
      var id :| id in rest;
      ids := ids + [id];
      rest := rest - {id};
    }
  }

  /** Add the collecting node's own signature and name the nonsigners. */
  method Aggregate(net: Network, own: NodeId, point: SyncPoint, gathered: map<NodeId, Signature>)
    returns (cert: Certificate)
    requires net.Valid() && net.Total() > 0.0
    requires gathered.Keys <= net.Ids() && forall id | id in gathered :: gathered[id] == Signature(id, point)
    ensures Signers(net, cert.nonsigners) == gathered.Keys + if net.StakeOf({own}) > 0.0 then {own} else {}
    ensures Verify(net, SignatureData(point, cert)) ==
            if Percent(net, net.StakeOf(Signers(net, cert.nonsigners))) >= net.threshold then Accepts else Refuses
  {
    var signatures := gathered;
    OwnShare(net, own, gathered.Keys);
    if net.StakeOf({own}) > 0.0 {
      signatures := signatures[own := Signature(own, point)];
    }
    var nonsigners := Listed(net.Ids() - signatures.Keys);
    cert := Certificate(set id | id in signatures :: signatures[id], nonsigners);
    CertificateVerifies(net, point, signatures, cert);
  }

  /** Stopping early changes nothing: the stake gathered by then decides as all the stake would. */
  lemma EnoughGathered(net: Network, own: NodeId, asked: set<NodeId>, waves: Waves, point: SyncPoint, used: nat)
    requires net.Valid() && net.Total() > 0.0 && WavesFrom(waves, asked) && used <= |waves|
    ensures ValidRepliers(waves[..used], point) <= ValidRepliers(waves, point) <= asked
    ensures Percent(net, net.StakeOf({own}) + net.StakeOf(ValidRepliers(waves[..used], point)))
            <= Percent(net, net.StakeOf({own}) + net.StakeOf(ValidRepliers(waves, point)))
    ensures used == |waves| ==> waves[..used] == waves
  {
    var some, every := ValidRepliers(waves[..used], point), ValidRepliers(waves, point);
    ValidRepliersAsked(waves, asked, point, used);
    StakeMonotone(net.attesting, some, every);
    PercentAdds(net, net.StakeOf({own}) + net.StakeOf(some), net.StakeOf({own}) + net.StakeOf(every));
  }

  lemma OwnShare(net: Network, own: NodeId, replied: set<NodeId>)
    requires net.Valid()
    ensures net.StakeOf({own}) >= 0.0
    ensures own !in replied ==> net.StakeOf(replied + {own}) == net.StakeOf(replied) + net.StakeOf({own})
    ensures net.StakeOf({own}) > 0.0 ==> own in net.Ids()
  {
    if own !in replied {
      StakeAddOne(net, replied, own);
    }
    StakeMonotone(net.attesting, {own}, {own});
    if own !in net.Ids() {
      StakeMonotone(net.attesting, {own}, {});
      StakeEmpty(net.attesting);
    }
  }

  /** A node that asks itself, and alone answers, gets a certificate that is refused.  The running node does not
      answer itself, since its endpoint refuses to sign while it is sequencer (node/routers.py:132); the collecting
      code does not rely on that. */
  method AskingItselfFails(p: SyncPoint) returns (net: Network, result: Option<Certificate>)
    ensures net.Valid() && result.Some? && Verify(net, SignatureData(p, result.value)) == Refuses
  {
    net := Network([Node("a", 1.0), Node("b", 1.0)], 100.0);
    var waves := [[Reply("a", Some(Signature("a", p)))]];
    HalfAnswered(p);
    result := GatherAndAggregate(net, "a", p, {"a"}, waves);
  }

  lemma HalfAnswered(p: SyncPoint)
    ensures var net, waves := Network([Node("a", 1.0), Node("b", 1.0)], 100.0), [[Reply("a", Some(Signature("a", p)))]];
      && net.Valid() && net.Ids() == {"a", "b"} && net.Total() == 2.0 && net.StakeOf({"a"}) == 1.0
      && ValidRepliers(waves, p) == {"a"} && Answered(net, "a", p, waves) == {"a"}
  {
    var nodes := [Node("a", 1.0), Node("b", 1.0)];
    var net, waves := Network(nodes, 100.0), [[Reply("a", Some(Signature("a", p)))]];
    assert net.Ids() == {"a", "b"} by {
      assert nodes[0].id == "a" && nodes[1].id == "b";
    }
    StakeOfTwo("a", "b", {"a"});
    StakeOfTwo("a", "b", {"a", "b"});
    StakeEmpty(nodes);
    assert waves[..0] == [] && waves[..1] == waves;
    assert ValidIn(waves[0], p) == {"a"} by {
      assert waves[0][0].node == "a" && Verifies(waves[0][0], p);
    }
    assert Awaited(net, 1.0, p, waves, 0) == Awaited(net, 1.0, p, waves, 1) == 1;
  }

  lemma StakeOfTwo(a: NodeId, b: NodeId, members: set<NodeId>)
    ensures Stake([Node(a, 1.0), Node(b, 1.0)], members) ==
              (if a in members then 1.0 else 0.0) + if b in members then 1.0 else 0.0
  {
    var nodes := [Node(a, 1.0), Node(b, 1.0)];
    var rest := nodes[1..];
    assert rest == [Node(b, 1.0)] && rest[1..] == [];
    assert Stake(rest, members) == (if b in members then 1.0 else 0.0) + Stake(rest[1..], members);
  }

  lemma PercentMeaning(net: Network, stake: real)
    requires net.Total() > 0.0
    ensures Percent(net, stake) >= net.threshold <==> 100.0 * stake >= net.threshold * net.Total()
  {
    var room := Percent(net, stake) - net.threshold;
    assert room * net.Total() == 100.0 * stake - net.threshold * net.Total();
    assert room >= 0.0 <==> room * net.Total() >= 0.0;
  }

  /** Signatures of some attesting nodes, with all the others named as nonsigners in whatever order. */
  lemma CertificateVerifies(net: Network, point: SyncPoint, signatures: map<NodeId, Signature>, cert: Certificate)
    requires net.Valid() && net.Total() > 0.0
    requires signatures.Keys <= net.Ids()
    requires forall id | id in signatures :: signatures[id] == Signature(id, point)
    requires cert.signature == set id | id in signatures :: signatures[id]
    requires Distinct(cert.nonsigners) && (set id | id in cert.nonsigners) == net.Ids() - signatures.Keys
    ensures Signers(net, cert.nonsigners) == signatures.Keys
    ensures Verify(net, SignatureData(point, cert)) ==
            if Percent(net, net.StakeOf(signatures.Keys)) >= net.threshold then Accepts else Refuses
  {
    var out := set id | id in cert.nonsigners;
    assert forall id | id in cert.nonsigners :: id in out;
    assert Signers(net, cert.nonsigners) == signatures.Keys;
    ListedLeaveQuorum(net, cert.nonsigners);
  }

  lemma PickMembers(net: Network, members: set<NodeId>)
    requires net.Valid() && members <= net.Ids()
    ensures Distinct(Pick(net.attesting, members))
    ensures (set id | id in Pick(net.attesting, members)) == members
  {
    PickDistinct(net.attesting, members);
  }

  lemma StakeComplement(net: Network, members: set<NodeId>)
    requires members <= net.Ids()
    ensures net.StakeOf(net.Ids() - members) == net.Total() - net.StakeOf(members)
  {
    var out := net.Ids() - members;
    StakeModular(net.attesting, out, members);
    assert out + members == net.Ids() && out * members == {};
    StakeEmpty(net.attesting);
  }

  /** The certificate of some attesting nodes that sign a point. */
  function CertFor(net: Network, members: set<NodeId>, p: SyncPoint): SignatureData {
    SignatureData(p, Certificate(set id | id in members :: Signature(id, p), Pick(net.attesting, net.Ids() - members)))
  }

  /** It is accepted if they are a quorum. */
  lemma QuorumAccepted(net: Network, members: set<NodeId>, p: SyncPoint)
    requires net.Valid() && IsQuorum(net, members)
    ensures Verify(net, CertFor(net, members, p)) == Accepts
  {
    TotalPositive(net);
    var signatures := map id | id in members :: Signature(id, p);
    assert signatures.Keys == members;
    assert forall id | id in members :: signatures[id] == Signature(id, p);
    assert (set id | id in signatures :: signatures[id]) == set id | id in members :: Signature(id, p) by {
      assert forall id | id in members :: signatures[id] in (set i | i in signatures :: signatures[i]);
      assert forall id | id in signatures :: Signature(id, p) in (set i | i in members :: Signature(i, p));
    }
    PickMembers(net, net.Ids() - members);
    CertificateVerifies(net, p, signatures, CertFor(net, members, p).cert);
    PercentMeaning(net, net.StakeOf(members));
  }
}
