/** How a run of messages and stake changes acts on one prophecy, and that every run can go on. */
module PollRuns {
  import opened Wrappers
  import opened Histories
  import opened Consensus
  import opened Voting
  import opened BridgeClaims
  import opened BridgeMachine
  import opened BridgeRuns

  // ---------------------------------------------------------------- every run can go on

  /** Every event can happen in every state: the handler always answers. */
  lemma StepExists(env: Env, s: Chain, e: Event) returns (s': Chain)
    ensures Step(env, s, e, s')
  {
    match e
    case StakeChange(staking) =>
      s' := s.(staking := staking);
    case Deliver(msg) =>
      if Rejection(msg).Some? {
        s' := s;
        assert Handles(env, s, msg, Err(Rejection(msg).value), s');
      } else {
        s' := AnswerExists(env, s, msg);
      }
  }

  lemma AnswerExists(env: Env, s: Chain, msg: EthBridgeClaim) returns (s': Chain)
    requires Rejection(msg) == None
    ensures exists r :: Handles(env, s, msg, r, s')
  {
    var id, b := MsgId(msg), MsgBallot(env, msg);
    var refusal := Refusal(s.staking, s.polls, id, b);
    if refusal.Some? {
      s' := s;
      assert Processes(env.threshold, s.staking, s.polls, id, b, Err(refusal.value), s.polls);
      assert Finishes(env, s, Err(refusal.value), s.polls, Err(OracleRefused(refusal.value)), s');
      assert Handles(env, s, msg, Err(OracleRefused(refusal.value)), s');
    } else {
      var votes := PollOf(s.polls, id).votes[b.voter := b.claim];
      assert b.voter in votes;
      var status := DecisionExists(env.threshold, s.staking, votes, PollOf(s.polls, id).status);
      var polls := s.polls[id := Poll(votes, status)];
      assert Processes(env.threshold, s.staking, s.polls, id, b, Ok(status), polls);
      s' := FinishExists(env, s, msg, status, polls);
    }
  }

  lemma FinishExists(env: Env, s: Chain, msg: EthBridgeClaim, status: Status, polls: Polls) returns (s': Chain)
    requires Rejection(msg) == None
    requires Processes(env.threshold, s.staking, s.polls, MsgId(msg), MsgBallot(env, msg), Ok(status), polls)
    ensures exists r :: Handles(env, s, msg, r, s')
  {
    var r: Result<StatusText, BridgeError>;
    if status.text != Success {
      r, s' := Ok(status.text), s.(polls := polls);
    } else if !Readable(env, status.finalClaim) {
      r, s' := Err(ClaimUnreadable), s;
    } else if Refuses(env, s.bank, status.finalClaim) {
      r, s' := Err(BankRefused), s;
    } else {
      r, s' := Ok(Success), Chain(polls, Paid(env, s.bank, status), s.staking);
    }
    assert Finishes(env, s, Ok(status), polls, r, s');
    assert Handles(env, s, msg, r, s');
  }

  lemma {:induction false} RunContinues(env: Env, states: seq<Chain>, events: seq<Event>, more: seq<Event>)
      returns (states': seq<Chain>)
    requires Trace(env, states, events)
    ensures Trace(env, states', events + more) && states <= states'
    decreases |more|
  {
    if more == [] {
      states' := states;
      assert events + more == events;
    } else {
      var s := StepExists(env, states[|states| - 1], more[0]);
      TraceExtends(env, states, events, more[0], s);
      states' := RunContinues(env, states + [s], events + [more[0]], more[1..]);
      assert events + more == events + [more[0]] + more[1..];
      assert states <= states + [s] <= states';
    }
  }

  /** From a state without prophecies every sequence of events has a run. */
  lemma RunExists(env: Env, s: Chain, events: seq<Event>) returns (states: seq<Chain>)
    requires s.polls == map[]
    ensures Trace(env, states, events) && states[0] == s
  {
    states := RunContinues(env, [s], [], events);
    assert [] + events == events;
  }

  // ---------------------------------------------------------------- the ballots of a run

  /** The acceptable ballots for one prophecy among the events. */
  function BallotsFor(env: Env, events: seq<Event>, id: string): seq<Ballot> {
    if events == [] then []
    else
      var e := Last(events);
      BallotsFor(env, Before(events), id) +
        if e.Deliver? && Rejection(e.msg) == None && MsgId(e.msg) == id then [MsgBallot(env, e.msg)] else []
  }

  ghost predicate Submitted(env: Env, msg: EthBridgeClaim, id: string, ballot: Ballot) {
    Rejection(msg) == None && MsgId(msg) == id && MsgBallot(env, msg) == ballot
  }

  lemma {:induction false} BallotFrom(
    env: Env, events: seq<Event>, id: string, ballot: Ballot)
      returns (msg: EthBridgeClaim)
    requires ballot in BallotsFor(env, events, id)
    ensures Deliver(msg) in events && Submitted(env, msg, id, ballot)
  {
    if ballot in BallotsFor(env, Before(events), id) {
      msg := BallotFrom(env, Before(events), id, ballot);
    } else {
      msg := Last(events).msg;
    }
  }

  lemma {:induction false} BallotOf(env: Env, events: seq<Event>, id: string, msg: EthBridgeClaim)
    requires Deliver(msg) in events && Rejection(msg) == None && MsgId(msg) == id
    ensures MsgBallot(env, msg) in BallotsFor(env, events, id)
  {
    if Last(events) != Deliver(msg) {
      assert events == Before(events) + [Last(events)];
      BallotOf(env, Before(events), id, msg);
    }
  }

  /** A status that the tally may give if this message is accepted. */
  ghost predicate MayDecide(env: Env, s: Chain, msg: EthBridgeClaim, status: Status) {
    var poll, ballot := PollOf(s.polls, MsgId(msg)), MsgBallot(env, msg);
    && Refusal(s.staking, s.polls, MsgId(msg), ballot) == None
    && Decides(env.threshold, s.staking, poll.votes[ballot.voter := ballot.claim], poll.status, status)
  }

  /** The bank takes whatever deposit this message may call for. */
  ghost predicate PayoutAccepted(env: Env, s: Chain, msg: EthBridgeClaim) {
    forall status ::
      MayDecide(env, s, msg, status) && status.text == Success ==> !Refuses(env, s.bank, status.finalClaim)
  }

  /** What the message may call for can also be read. */
  ghost predicate PayoutReadable(env: Env, s: Chain, msg: EthBridgeClaim) {
    forall status :: MayDecide(env, s, msg, status) && status.text == Success ==> Readable(env, status.finalClaim)
  }

  lemma IdNotEmpty(msg: EthBridgeClaim)
    requires Rejection(msg) == None
    ensures MsgId(msg) != ""
  {
  }

  predicate Concerns(e: Event, id: string) {
    e.Deliver? && Rejection(e.msg) == None && MsgId(e.msg) == id
  }

  /** With a fixed staking snapshot, a prophecy whose deposits the bank takes is a play of its ballots, in any run. */
  lemma {:induction false} RunIsPlay(
    env: Env, chains: seq<Chain>, events: seq<Event>, snap: Snapshot, id: string, n: nat)
    requires env.threshold.Valid() && Trace(env, chains, events) && n < |chains| && id != ""
    requires forall i :: 0 <= i < n ==> chains[i].staking == snap
    requires forall i :: 0 <= i < n && Concerns(events[i], id) ==> PayoutAccepted(env, chains[i], events[i].msg)
    ensures Plays(env.threshold, snap, BallotsFor(env, events[..n], id), PollOf(chains[n].polls, id))
  {
    if n > 0 {
      RunIsPlay(env, chains, events, snap, id, n - 1);
      EventActs(env, chains, events, id, n - 1);
      PlayContinues(env, events, snap, id, n - 1, PollOf(chains[n - 1].polls, id), PollOf(chains[n].polls, id));
    }
  }

  /** What one event of a run does to one prophecy. */
  lemma EventActs(env: Env, chains: seq<Chain>, events: seq<Event>, id: string, n: nat)
    requires env.threshold.Valid() && Trace(env, chains, events) && n < |events| && id != ""
    requires Concerns(events[n], id) ==> PayoutAccepted(env, chains[n], events[n].msg)
    ensures
      var poll, poll' := PollOf(chains[n].polls, id), PollOf(chains[n + 1].polls, id);
      if Concerns(events[n], id)
      then Submits(env.threshold, chains[n].staking, poll, MsgBallot(env, events[n].msg), poll')
      else poll' == poll
  {
    assert Step(env, chains[n], events[n], chains[n + 1]);
    if Concerns(events[n], id) {
      ReachablePayoutReadable(env, chains, events, n, events[n].msg);
      StepSubmits(env, chains[n], events[n].msg, chains[n + 1]);
    } else {
      OtherEventKeeps(env, chains[n], events[n], chains[n + 1], id);
    }
  }

  lemma PlayContinues(env: Env, events: seq<Event>, snap: Snapshot, id: string, n: nat, poll: Poll, poll': Poll)
    requires n < |events| && Plays(env.threshold, snap, BallotsFor(env, events[..n], id), poll)
    requires if Concerns(events[n], id) then Submits(env.threshold, snap, poll, MsgBallot(env, events[n].msg), poll')
             else poll' == poll
    ensures Plays(env.threshold, snap, BallotsFor(env, events[..n + 1], id), poll')
  {
    BallotsNext(env, events, id, n);
    if Concerns(events[n], id) {
      AppendBallot(
        env.threshold, snap, BallotsFor(env, events[..n], id), poll, MsgBallot(env, events[n].msg), poll');
    }
  }

  lemma BallotsNext(env: Env, events: seq<Event>, id: string, n: nat)
    requires n < |events|
    ensures
      BallotsFor(env, events[..n + 1], id) ==
        if Concerns(events[n], id) then BallotsFor(env, events[..n], id) + [MsgBallot(env, events[n].msg)]
        else BallotsFor(env, events[..n], id)
  {
    assert Before(events[..n + 1]) == events[..n] && Last(events[..n + 1]) == events[n];
  }

  lemma OtherEventKeeps(env: Env, s: Chain, e: Event, s': Chain, id: string)
    requires Step(env, s, e, s') && !Concerns(e, id)
    ensures PollOf(s'.polls, id) == PollOf(s.polls, id)
  {
    if e.Deliver? {
      DeliverCases(env, s, e.msg, s');
    }
  }

  /** A delivered message whose payout is possible acts on its prophecy as a ballot. */
  lemma StepSubmits(env: Env, s: Chain, msg: EthBridgeClaim, s': Chain)
    requires Step(env, s, Deliver(msg), s') && Rejection(msg) == None && MsgId(msg) != ""
    requires PayoutAccepted(env, s, msg) && PayoutReadable(env, s, msg)
    ensures
      var id := MsgId(msg);
      Submits(env.threshold, s.staking, PollOf(s.polls, id), MsgBallot(env, msg), PollOf(s'.polls, id))
  {
    var id, b := MsgId(msg), MsgBallot(env, msg);
    var r :| Handles(env, s, msg, r, s');
    var answer, polls :|
      Processes(env.threshold, s.staking, s.polls, id, b, answer, polls) && Finishes(env, s, answer, polls, r, s');
    ProcessesSubmits(env.threshold, s.staking, s.polls, id, b, answer, polls);
    if answer.Ok? {
      assert MayDecide(env, s, msg, answer.value);
    }
  }

  /** In a reachable state, a claim that a new vote may make final was cast in some message, so it can be read back. */
  lemma ReachablePayoutReadable(env: Env, chains: seq<Chain>, events: seq<Event>, n: nat, msg: EthBridgeClaim)
    requires env.threshold.Valid() && Trace(env, chains, events) && n < |chains| && Rejection(msg) == None
    ensures PayoutReadable(env, chains[n], msg)
  {
    var s, b := chains[n], MsgBallot(env, msg);
    var poll := PollOf(s.polls, MsgId(msg));
    var votes := poll.votes[b.voter := b.claim];
    ClaimRoundTrip(env.codec, OracleClaim(msg.cosmosReceiver, msg.amount));
    if MsgId(msg) in s.polls {
      VotesReadable(env, chains, events, n, MsgId(msg));
    }
    forall status | MayDecide(env, s, msg, status) && status.text == Success
      ensures Readable(env, status.finalClaim)
    {
      DecisionMeaning(env.threshold, s.staking, votes, poll.status, status);
      var v :| v in votes && votes[v] == status.finalClaim;
    }
  }

  // ---------------------------------------------------------------- runs without changes of stake

  /** Messages do not change the stake. */
  lemma {:induction false} StakeKept(env: Env, states: seq<Chain>, events: seq<Event>, n: nat)
    requires Trace(env, states, events) && n < |states| && (forall e :: e in events ==> e.Deliver?)
    ensures states[n].staking == states[0].staking
  {
    if n > 0 {
      StakeKept(env, states, events, n - 1);
      assert Step(env, states[n - 1], events[n - 1], states[n]);
      DeliverCases(env, states[n - 1], events[n - 1].msg, states[n]);
    }
  }

  /** A run of messages only, with a bank that takes every deposit, plays their ballots under the initial stake. */
  lemma MessagesPlay(env: Env, states: seq<Chain>, events: seq<Event>, id: string)
    requires env.threshold.Valid() && Trace(env, states, events) && id != ""
    requires (forall e :: e in events ==> e.Deliver?) && (forall bank, a, coins :: env.accepts(bank, a, coins))
    ensures states[|events|].staking == states[0].staking
    ensures Plays(env.threshold, states[0].staking, BallotsFor(env, events, id), PollOf(states[|events|].polls, id))
  {
    forall i | 0 <= i <= |events| ensures states[i].staking == states[0].staking {
      StakeKept(env, states, events, i);
    }
    RunIsPlay(env, states, events, states[0].staking, id, |events|);
    assert events[..|events|] == events;
  }
}
