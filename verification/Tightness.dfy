/**
 How much power the end-to-end bound really needs to be honest: exactly when faulty validators alone, without any lock
 event, can bring a prophecy to success.
 */
module Tightness {
  import opened Wrappers
  import opened Addresses
  import opened Histories
  import opened Sums
  import opened Consensus
  import opened Voting
  import opened OrderSensitivity
  import opened BridgeClaims
  import opened BridgeMachine
  import opened BridgeRuns
  import opened PollRuns
  import opened EndToEnd

  /**
   A run of messages by faulty validators only, under this stake, after which a prophecy has succeeded. No lock event
   and no message of anyone else is needed for it.
   */
  ghost predicate Unbacked(b: Bridge, snap: Snapshot, states: seq<Chain>, events: seq<Event>, id: string) {
    && Trace(b.env, states, events) && states[0].staking == snap
    && (forall e :: e in events ==> e.Deliver? && e.msg.validator in b.faulty)
    && id in states[|events|].polls && states[|events|].polls[id].status.text == Success
  }

  ghost predicate CanMintUnbacked(b: Bridge, snap: Snapshot) {
    exists states, events, id :: Unbacked(b, snap, states, events, id)
  }

  // ---------------------------------------------------------------- too little power

  lemma UnbackedNeedsPower(b: Bridge, snap: Snapshot, states: seq<Chain>, events: seq<Event>, id: string)
    requires b.env.threshold.Valid() && Unbacked(b, snap, states, events, id)
    ensures !FaultyMinority(b, snap)
  {
    var n := |events|;
    var i := SuccessHasEvidence(b.env, states, events, n, id);
    StakeKept(b.env, states, events, i);
    var poll := states[n].polls[id];
    if FaultyMinority(b, snap) {
      var v := HonestSupporter(b, snap, poll.votes, poll.status.finalClaim);
      var j := VotesWereCast(b.env, states, events, n, id, v);
    }
  }

  // ---------------------------------------------------------------- enough power, below a threshold of 1

  /** The same claim sent by each of these validators. */
  lemma {:induction false} MessagesBy(msg: EthBridgeClaim, vs: set<Bytes>) returns (events: seq<Event>)
    ensures forall e :: e in events <==> exists v :: v in vs && e == Deliver(msg.(validator := v))
    decreases vs
  {
    if vs == {} {
      events := [];
    } else {
      var v :| v in vs;
      var rest := MessagesBy(msg, vs - {v});
      events := [Deliver(msg.(validator := v))] + rest;
    }
  }

  lemma BallotsBy(env: Env, msg: EthBridgeClaim, vs: set<Bytes>, events: seq<Event>)
    requires Rejection(msg) == None
    requires forall e :: e in events <==> exists v :: v in vs && e == Deliver(msg.(validator := v))
    ensures forall ballot :: ballot in BallotsFor(env, events, MsgId(msg)) <==>
              ballot.voter in vs && ballot.claim == MsgBallot(env, msg).claim
  {
    forall ballot
      ensures ballot in BallotsFor(env, events, MsgId(msg)) <==>
                ballot.voter in vs && ballot.claim == MsgBallot(env, msg).claim
    {
      if ballot in BallotsFor(env, events, MsgId(msg)) {
        var sent := BallotFrom(env, events, MsgId(msg), ballot);
      }
      if ballot.voter in vs && ballot.claim == MsgBallot(env, msg).claim {
        assert Deliver(msg.(validator := ballot.voter)) in events;
        BallotOf(env, events, MsgId(msg), msg.(validator := ballot.voter));
      }
    }
  }

  /** All bonded validators vote: the faulty ones for c, the others for something else. */
  ghost function Divided(b: Bridge, snap: Snapshot, c: string): Votes {
    map v | v in snap.bonded :: if v in b.faulty then c else c + "x"
  }

  lemma DividedSupport(b: Bridge, snap: Snapshot, c: string)
    requires c != ""
    ensures Complete(snap, Divided(b, snap, c))
    ensures Voters(Divided(b, snap, c), c) == b.faulty * snap.bonded.Keys
    ensures Support(snap, Divided(b, snap, c), c) == FaultyPower(b, snap)
  {
    var final := Divided(b, snap, c);
    var powers := map v | v in b.faulty :: snap.Power(v);
    var unbonded := map v | v in b.faulty && v !in snap.bonded :: snap.Power(v);
    assert |c + "x"| != |c|;
    SumSplit(powers, SupportMap(snap, final, c), unbonded);
    SumLeq(unbonded, map[]);
    SumNonNegative(unbonded);
  }

  lemma PowerMintsUnbacked(b: Bridge, snap: Snapshot, msg: EthBridgeClaim)
    requires b.env.threshold.Valid() && b.env.threshold.num < b.env.threshold.den && snap.Valid()
    requires Rejection(msg) == None && (forall bank, a, coins :: b.env.accepts(bank, a, coins))
    requires !FaultyMinority(b, snap)
    ensures CanMintUnbacked(b, snap)
  {
    var vs, c, id := b.faulty * snap.bonded.Keys, MsgBallot(b.env, msg).claim, MsgId(msg);
    var events := MessagesBy(msg, vs);
    var states := RunExists(b.env, Chain(map[], map[], snap), events);
    IdNotEmpty(msg);
    MessagesPlay(b.env, states, events, id);
    BallotsBy(b.env, msg, vs, events);
    DividedSupport(b, snap, c);
    SupportersAlone(b.env.threshold, snap, Divided(b, snap, c), c, BallotsFor(b.env, events, id),
                    PollOf(states[|events|].polls, id));
    assert Unbacked(b, snap, states, events, id);
  }

  // ---------------------------------------------------------------- a threshold of 1

  /** At a threshold of 1, if none of the voters holds all the power, no poll of theirs succeeds. */
  lemma {:induction false} NoHolderAmong(th: Threshold, snap: Snapshot, bs: seq<Ballot>, poll: Poll)
    requires th.Valid() && th.num == th.den && snap.Exact()
    requires (forall ballot :: ballot in bs ==> !HoldsAll(snap, ballot.voter)) && Plays(th, snap, bs, poll)
    ensures poll == NEW_POLL || poll.status.text == Failed
  {
    if bs != [] {
      var mid :| Plays(th, snap, Before(bs), mid) && Submits(th, snap, mid, Last(bs), poll);
      NoHolderAmong(th, snap, Before(bs), mid);
      var ballot := Last(bs);
      if Admissible(snap, mid, ballot) {
        AppendBallot(th, snap, [], mid, ballot, poll);
        assert [] + [ballot] == [ballot];
        FirstBallotSettles(th, snap, [ballot], poll);
        assert !HoldsAll(snap, ballot.voter);
      }
    }
  }

  lemma HolderMintsUnbacked(b: Bridge, snap: Snapshot, msg: EthBridgeClaim, v: Bytes)
    requires b.env.threshold.Valid() && b.env.threshold.num == b.env.threshold.den && snap.Exact()
    requires Rejection(msg) == None && (forall bank, a, coins :: b.env.accepts(bank, a, coins))
    requires v in b.faulty && HoldsAll(snap, v)
    ensures CanMintUnbacked(b, snap)
  {
    var own, id := msg.(validator := v), MsgId(msg);
    var events := [Deliver(own)];
    var states := RunExists(b.env, Chain(map[], map[], snap), events);
    IdNotEmpty(msg);
    MessagesPlay(b.env, states, events, id);
    SingleBallot(b.env, own);
    FirstBallotSettles(b.env.threshold, snap, [MsgBallot(b.env, own)], PollOf(states[1].polls, id));
    assert Unbacked(b, snap, states, events, id);
  }

  lemma SingleBallot(env: Env, msg: EthBridgeClaim)
    requires Rejection(msg) == None
    ensures BallotsFor(env, [Deliver(msg)], MsgId(msg)) == [MsgBallot(env, msg)]
  {
    BallotsNext(env, [Deliver(msg)], MsgId(msg), 0);
    assert [Deliver(msg)][..1] == [Deliver(msg)];
  }

  lemma UnbackedNeedsHolder(b: Bridge, snap: Snapshot, states: seq<Chain>, events: seq<Event>, id: string)
    requires b.env.threshold.Valid() && b.env.threshold.num == b.env.threshold.den && snap.Exact()
    requires (forall bank, a, coins :: b.env.accepts(bank, a, coins)) && Unbacked(b, snap, states, events, id)
    ensures exists v :: v in b.faulty && HoldsAll(snap, v)
  {
    StoredPollsSound(b.env, states, events, |events|);
    MessagesPlay(b.env, states, events, id);
    var bs, poll := BallotsFor(b.env, events, id), states[|events|].polls[id];
    if forall ballot :: ballot in bs ==> !HoldsAll(snap, ballot.voter) {
      NoHolderAmong(b.env.threshold, snap, bs, poll);
    }
    var ballot :| ballot in bs && HoldsAll(snap, ballot.voter);
    var msg := BallotFrom(b.env, events, id, ballot);
  }

  // ---------------------------------------------------------------- the exact condition

  /**
   With a bank that takes deposits, faulty validators alone can bring a prophecy to success under this stake exactly if
   they reach the threshold; at a threshold of 1, exactly if one of them holds all the power.
   */
  lemma UnbackedMintExactly(b: Bridge, snap: Snapshot, msg: EthBridgeClaim)
    requires b.env.threshold.Valid() && snap.Exact()
    requires Rejection(msg) == None && (forall bank, a, coins :: b.env.accepts(bank, a, coins))
    ensures CanMintUnbacked(b, snap) <==>
              if b.env.threshold.num < b.env.threshold.den then !FaultyMinority(b, snap)
              else exists v :: v in b.faulty && HoldsAll(snap, v)
  {
    if states, events, id :| Unbacked(b, snap, states, events, id) {
      UnbackedNeedsPower(b, snap, states, events, id);
      if b.env.threshold.num == b.env.threshold.den {
        UnbackedNeedsHolder(b, snap, states, events, id);
      }
    }
    if b.env.threshold.num < b.env.threshold.den {
      if !FaultyMinority(b, snap) {
        PowerMintsUnbacked(b, snap, msg);
      }
    } else if v :| v in b.faulty && HoldsAll(snap, v) {
      HolderMintsUnbacked(b, snap, msg, v);
    }
  }
}
