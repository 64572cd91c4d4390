/**
 A prophecy is only tallied when a claim is accepted. So once all bonded validators have claimed it stands still, and a
 change of stake can leave it pending although every bonded validator agrees.
 */
module Exhaustion {
  import opened Wrappers
  import opened Addresses
  import opened Sums
  import opened Consensus
  import opened Voting
  import opened OrderSensitivity
  import opened BridgeClaims
  import opened BridgeMachine
  import opened BridgeRuns
  import opened PollRuns
  import ReplicaWitness

  /** Every bonded validator of the current snapshot has claimed. */
  ghost predicate Exhausted(s: Chain, id: string) {
    s.staking.bonded.Keys <= PollOf(s.polls, id).votes.Keys
  }

  lemma ExhaustedStep(env: Env, s: Chain, e: Event, s': Chain, id: string)
    requires Step(env, s, e, s') && Exhausted(s, id)
    ensures PollOf(s'.polls, id) == PollOf(s.polls, id)
  {
    if e.Deliver? {
      DeliverCases(env, s, e.msg, s');
    }
  }

  /**
   While only validators that have already claimed are bonded, the prophecy does not change, whatever else happens.
   */
  lemma {:induction false} ExhaustedStays(
    env: Env, states: seq<Chain>, events: seq<Event>, id: string, i: nat, n: nat)
    requires Trace(env, states, events) && i <= n < |states|
    requires forall j :: i <= j < n ==> states[j].staking.bonded.Keys <= PollOf(states[i].polls, id).votes.Keys
    ensures PollOf(states[n].polls, id) == PollOf(states[i].polls, id)
  {
    if i < n {
      ExhaustedStays(env, states, events, id, i, n - 1);
      assert Step(env, states[n - 1], events[n - 1], states[n]);
      assert Exhausted(states[n - 1], id);
      ExhaustedStep(env, states[n - 1], events[n - 1], states[n], id);
    }
  }

  ghost predicate CanChange(env: Env, s: Chain, id: string) {
    exists msg, s' :: Step(env, s, Deliver(msg), s') && PollOf(s'.polls, id) != PollOf(s.polls, id)
  }

  /**
   A pending prophecy of a reachable state, with a bank that takes deposits, can still change exactly if some bonded
   validator has not claimed.
   */
  lemma CanChangeExactly(env: Env, states: seq<Chain>, events: seq<Event>, n: nat, id: string)
    requires env.threshold.Valid() && Trace(env, states, events) && n < |states|
    requires id in states[n].polls && states[n].polls[id].status.text == Pending
    requires forall a, coins :: env.accepts(states[n].bank, a, coins)
    ensures CanChange(env, states[n], id) <==> !Exhausted(states[n], id)
  {
    var s := states[n];
    if Exhausted(s, id) {
      forall msg, s' | Step(env, s, Deliver(msg), s') ensures PollOf(s'.polls, id) == PollOf(s.polls, id) {
        ExhaustedStep(env, s, Deliver(msg), s', id);
      }
    } else {
      var v :| v in s.staking.bonded && v !in s.polls[id].votes;
      var msg := MessageOf(env, states, events, n, id, v);
      var s' := StepExists(env, s, Deliver(msg));
      ReachablePayoutReadable(env, states, events, n, msg);
      StepSubmits(env, s, msg, s');
      assert v in PollOf(s'.polls, id).votes;
    }
  }

  /** Another validator can send what one has already sent. */
  lemma MessageOf(env: Env, states: seq<Chain>, events: seq<Event>, n: nat, id: string, v: Bytes)
      returns (msg: EthBridgeClaim)
    requires env.threshold.Valid() && Trace(env, states, events) && n < |states| && id in states[n].polls
    ensures Rejection(msg) == None && MsgId(msg) == id && id != "" && msg.validator == v
  {
    StoredPollsSound(env, states, events, n);
    var w :| w in states[n].polls[id].votes;
    var j := VotesWereCast(env, states, events, n, id, w);
    msg := events[j].msg.(validator := v);
  }

  // ---------------------------------------------------------------- a stranded prophecy

  const V1: Bytes := [1]
  const V2: Bytes := [2]
  const V3: Bytes := [3]
  const TWO_THIRDS := Threshold(2, 3)
  const BEFORE := Snapshot(map[V1 := 3, V2 := 3, V3 := 4], 10)
  const AFTER := Snapshot(map[V1 := 3, V2 := 3], 6)

  /** The first two validators have claimed c. */
  ghost function TwoVotes(c: string): Votes {
    var none: Votes := map[];
    none[V1 := c][V2 := c]
  }

  lemma TwoVotesTally(snap: Snapshot, c: string)
    requires snap == BEFORE || snap == AFTER
    ensures Support(snap, TwoVotes(c), c) == Claimed(snap, TwoVotes(c)) == 6
  {
    assert V1[0] != V2[0] && V1[0] != V3[0] && V2[0] != V3[0];
    var none: Votes := map[];
    EmptyTally(snap, c);
    SupportAdd(snap, none, V1, c, c);
    SupportAdd(snap, none[V1 := c], V2, c, c);
  }

  /** The message of one of them. */
  predicate IsPair(one: EthBridgeClaim, other: EthBridgeClaim) {
    Rejection(one) == None && one.validator == V1 && other == one.(validator := V2)
  }

  /** Two votes of 3 for the same claim neither decide a poll with a total of 10 nor make it hopeless. */
  lemma PairUndecided(c: string, bs: seq<Ballot>, poll: Poll)
    requires Plays(TWO_THIRDS, BEFORE, bs, poll)
    requires forall b :: b in bs ==> b.claim == c && (b.voter == V1 || b.voter == V2)
    ensures poll.status.text == Pending
  {
    StakesAreSound();
    AloneNeverFails(TWO_THIRDS, BEFORE, c, bs, poll);
    PlaysInv(TWO_THIRDS, BEFORE, bs, poll);
    PlaysVotes(TWO_THIRDS, BEFORE, bs, poll);
    if poll.status.text == Success {
      PairBelow(c, poll.votes);
    }
  }

  lemma PairBelow(c: string, votes: Votes)
    requires forall v :: v in votes ==> votes[v] == c && (v == V1 || v == V2)
    ensures Support(BEFORE, votes, c) <= 6
  {
    TwoVotesTally(BEFORE, c);
    SupportMonotone(BEFORE, votes, TwoVotes(c), c);
  }

  lemma PairPends(c: string, poll: Poll)
    requires c != "" && Plays(TWO_THIRDS, BEFORE, [Ballot(V1, c), Ballot(V2, c)], poll)
    ensures poll == Poll(TwoVotes(c), NEW_STATUS)
  {
    var bs := [Ballot(V1, c), Ballot(V2, c)];
    PairUndecided(c, bs, poll);
    PlaysInv(TWO_THIRDS, BEFORE, bs, poll);
    PairCounted(c, bs, poll);
  }

  lemma PairCounted(c: string, bs: seq<Ballot>, poll: Poll)
    requires c != "" && bs == [Ballot(V1, c), Ballot(V2, c)]
    requires Plays(TWO_THIRDS, BEFORE, bs, poll) && poll.status.text == Pending
    ensures poll.votes == TwoVotes(c)
  {
    PendingCountsAll(TWO_THIRDS, BEFORE, bs, poll);
    BothBonded();
    assert bs[0] in bs && bs[1] in bs;
    assert V1 in poll.votes && V2 in poll.votes;
    PairOnly(c, bs, poll);
  }

  lemma PairOnly(c: string, bs: seq<Ballot>, poll: Poll)
    requires bs == [Ballot(V1, c), Ballot(V2, c)] && Plays(TWO_THIRDS, BEFORE, bs, poll)
    requires V1 in poll.votes && V2 in poll.votes
    ensures poll.votes == TwoVotes(c)
  {
    PlaysVotes(TWO_THIRDS, BEFORE, bs, poll);
    forall v | v in poll.votes ensures v in TwoVotes(c) && poll.votes[v] == TwoVotes(c)[v] {
      assert Ballot(v, poll.votes[v]) in bs;
    }
  }

  lemma BothBonded()
    ensures V1 in BEFORE.bonded && V2 in BEFORE.bonded
  {
  }

  lemma StakesAreSound()
    ensures BEFORE.Exact() && AFTER.Exact()
  {
    assert V1[0] != V2[0] && V1[0] != V3[0] && V2[0] != V3[0];
    var none: map<Bytes, int> := map[];
    SumUpdate(none, V1, 3);
    SumUpdate(none[V1 := 3], V2, 3);
    SumUpdate(none[V1 := 3][V2 := 3], V3, 4);
    assert none[V1 := 3][V2 := 3] == AFTER.bonded;
    assert none[V1 := 3][V2 := 3][V3 := 4] == BEFORE.bonded;
  }

  /** Whatever the bank, a run of the two messages before any change of stake. */
  lemma PairRun(env: Env, one: EthBridgeClaim, other: EthBridgeClaim) returns (states: seq<Chain>)
    requires env.threshold == TWO_THIRDS && IsPair(one, other) && (forall bank, a, coins :: env.accepts(bank, a, coins))
    ensures Trace(env, states, [Deliver(one), Deliver(other)])
    ensures states[0] == Chain(map[], map[], BEFORE) && states[2].staking == BEFORE
    ensures PollOf(states[2].polls, MsgId(one)) == Poll(TwoVotes(MsgBallot(env, one).claim), NEW_STATUS)
  {
    states := RunExists(env, Chain(map[], map[], BEFORE), [Deliver(one), Deliver(other)]);
    IdNotEmpty(one);
    MessagesPlay(env, states, [Deliver(one), Deliver(other)], MsgId(one));
    PairBallots(env, one, other);
    PairPends(MsgBallot(env, one).claim, PollOf(states[2].polls, MsgId(one)));
  }

  lemma PairBallots(env: Env, one: EthBridgeClaim, other: EthBridgeClaim)
    requires IsPair(one, other)
    ensures BallotsFor(env, [Deliver(one), Deliver(other)], MsgId(one)) == [MsgBallot(env, one), MsgBallot(env, other)]
  {
    var events, id := [Deliver(one), Deliver(other)], MsgId(one);
    BallotsNext(env, events, id, 0);
    BallotsNext(env, events, id, 1);
    assert events[..2] == events;
  }

  ghost function WitnessEnv(): Env {
    Env(LatinCodec(), TWO_THIRDS, (bank, a, coins) => true)
  }

  /** The claim of validator v for one coin. */
  function CoinClaim(v: Bytes): EthBridgeClaim {
    EthBridgeClaim(0, ReplicaWitness.Sender(), [9], v, [Coin("ethereum", 1)])
  }

  /**
   Powers 3, 3 and 4 at two thirds: the first two validators agree, and the third one leaves. All bonded validators
   have claimed, all the power is behind one claim, and the prophecy is pending; by ExhaustedStays it remains so until
   another validator is bonded.
   */
  lemma StakeChangeStrands() returns (states: seq<Chain>, id: string, c: string)
    ensures Trace(WitnessEnv(), states, [Deliver(CoinClaim(V1)), Deliver(CoinClaim(V2)), StakeChange(AFTER)])
    ensures states[0] == Chain(map[], map[], BEFORE) && BEFORE.Exact() && AFTER.Exact()
    ensures states[3].staking == AFTER && id in states[3].polls && states[3].polls[id].status.text == Pending
    ensures Exhausted(states[3], id) && Support(AFTER, states[3].polls[id].votes, c) == AFTER.totalPower
  {
    var one, other := CoinClaim(V1), CoinClaim(V2);
    ReplicaWitness.SenderIsValid();
    StakesAreSound();
    var early := PairRun(WitnessEnv(), one, other);
    id, c := MsgId(one), MsgBallot(WitnessEnv(), one).claim;
    states := early + [early[2].(staking := AFTER)];
    TraceExtends(WitnessEnv(), early, [Deliver(one), Deliver(other)], StakeChange(AFTER), states[3]);
    assert [Deliver(one), Deliver(other)] + [StakeChange(AFTER)] == [Deliver(one), Deliver(other), StakeChange(AFTER)];
    Stranded(states[3], id, c);
  }

  lemma Stranded(s: Chain, id: string, c: string)
    requires s.staking == AFTER && PollOf(s.polls, id) == Poll(TwoVotes(c), NEW_STATUS)
    ensures id in s.polls && s.polls[id].status.text == Pending
    ensures Exhausted(s, id) && Support(AFTER, s.polls[id].votes, c) == AFTER.totalPower
  {
    assert V1 in TwoVotes(c) && V2 in TwoVotes(c);
    TwoVotesTally(AFTER, c);
  }
}
