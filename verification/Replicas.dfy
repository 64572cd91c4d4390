/**
 Replicas that execute the same messages, each with its own order of visiting maps: when they stay in the same state
 over whole runs, and a run after which they do not.
 */
module Replicas {
  import opened Wrappers
  import opened Consensus
  import opened Voting
  import opened BridgeClaims
  import opened BridgeMachine
  import opened BridgeRuns
  import opened PollRuns

  /** If this message is accepted, all visiting orders give the same status. */
  ghost predicate Unambiguous(env: Env, s: Chain, msg: EthBridgeClaim) {
    var poll, ballot := PollOf(s.polls, MsgId(msg)), MsgBallot(env, msg);
    var votes := poll.votes[ballot.voter := ballot.claim];
    Rejection(msg) == None && Refusal(s.staking, s.polls, MsgId(msg), ballot) == None ==>
      forall st, st' ::
        && Decides(env.threshold, s.staking, votes, poll.status, st)
        && Decides(env.threshold, s.staking, votes, poll.status, st')
        ==> st == st'
  }

  lemma HandlesDetermined(
    env: Env, s: Chain, msg: EthBridgeClaim,
    r1: Result<StatusText, BridgeError>, s1: Chain, r2: Result<StatusText, BridgeError>, s2: Chain)
    requires Unambiguous(env, s, msg) && Handles(env, s, msg, r1, s1) && Handles(env, s, msg, r2, s2)
    ensures r1 == r2 && s1 == s2
  {
    if Rejection(msg) == None {
      var id, ballot := MsgId(msg), MsgBallot(env, msg);
      var answer1, polls1 :|
        Processes(env.threshold, s.staking, s.polls, id, ballot, answer1, polls1) &&
        Finishes(env, s, answer1, polls1, r1, s1);
      var answer2, polls2 :|
        Processes(env.threshold, s.staking, s.polls, id, ballot, answer2, polls2) &&
        Finishes(env, s, answer2, polls2, r2, s2);
      AnswerDetermined(env, s, msg, answer1, polls1, answer2, polls2);
      FinishDetermined(env, s, answer1, polls1, r1, s1, r2, s2);
    }
  }

  lemma AnswerDetermined(
    env: Env, s: Chain, msg: EthBridgeClaim,
    answer1: Result<Status, OracleError>, polls1: Polls, answer2: Result<Status, OracleError>, polls2: Polls)
    requires Unambiguous(env, s, msg) && Rejection(msg) == None
    requires Processes(env.threshold, s.staking, s.polls, MsgId(msg), MsgBallot(env, msg), answer1, polls1)
    requires Processes(env.threshold, s.staking, s.polls, MsgId(msg), MsgBallot(env, msg), answer2, polls2)
    ensures answer1 == answer2 && polls1 == polls2
  {
  }

  lemma FinishDetermined(
    env: Env, s: Chain, answer: Result<Status, OracleError>, polls: Polls,
    r1: Result<StatusText, BridgeError>, s1: Chain, r2: Result<StatusText, BridgeError>, s2: Chain)
    requires Finishes(env, s, answer, polls, r1, s1) && Finishes(env, s, answer, polls, r2, s2)
    ensures r1 == r2 && s1 == s2
  {
  }

  ghost predicate StepUnambiguous(env: Env, s: Chain, e: Event) {
    e.Deliver? ==> Unambiguous(env, s, e.msg)
  }

  lemma StepDetermined(env: Env, s: Chain, e: Event, s1: Chain, s2: Chain)
    requires StepUnambiguous(env, s, e) && Step(env, s, e, s1) && Step(env, s, e, s2)
    ensures s1 == s2
  {
    if e.Deliver? {
      var r1 :| Handles(env, s, e.msg, r1, s1);
      var r2 :| Handles(env, s, e.msg, r2, s2);
      HandlesDetermined(env, s, e.msg, r1, s1, r2, s2);
    }
  }

  lemma {:induction false} TracesDetermined(env: Env, one: seq<Chain>, other: seq<Chain>, events: seq<Event>, n: nat)
    requires Trace(env, one, events) && Trace(env, other, events) && one[0] == other[0] && n < |one|
    requires forall i :: 0 <= i < |events| ==> StepUnambiguous(env, one[i], events[i])
    ensures one[n] == other[n]
  {
    if n > 0 {
      TracesDetermined(env, one, other, events, n - 1);
      assert Step(env, one[n - 1], events[n - 1], one[n]);
      assert Step(env, other[n - 1], events[n - 1], other[n]);
      StepDetermined(env, one[n - 1], events[n - 1], one[n], other[n]);
    }
  }

  /**
   Over a majority threshold, replicas that start alike and execute the same messages and stake changes stay alike.
   */
  lemma MajorityReplicasAgree(env: Env, one: seq<Chain>, other: seq<Chain>, events: seq<Event>)
    requires env.threshold.Majority() && (forall s :: s in one ==> s.staking.Covers())
    requires Trace(env, one, events) && Trace(env, other, events) && one[0] == other[0]
    ensures one == other
  {
    forall i | 0 <= i < |events| ensures StepUnambiguous(env, one[i], events[i]) {
      if events[i].Deliver? {
        assert one[i] in one;
        MajorityUnambiguous(env, one[i], events[i].msg);
      }
    }
    forall n | 0 <= n < |one| ensures one[n] == other[n] {
      TracesDetermined(env, one, other, events, n);
    }
  }

  lemma MajorityUnambiguous(env: Env, s: Chain, msg: EthBridgeClaim)
    requires env.threshold.Majority() && s.staking.Covers()
    ensures Unambiguous(env, s, msg)
  {
    var poll, ballot := PollOf(s.polls, MsgId(msg)), MsgBallot(env, msg);
    var votes := poll.votes[ballot.voter := ballot.claim];
    if Refusal(s.staking, s.polls, MsgId(msg), ballot) == None {
      forall st, st' |
        Decides(env.threshold, s.staking, votes, poll.status, st) &&
        Decides(env.threshold, s.staking, votes, poll.status, st')
        ensures st == st'
      {
        MajorityDeterminesStatus(env.threshold, s.staking, votes, poll.status, st, st');
      }
    }
  }

  // ---------------------------------------------------------------- any threshold, fixed stake

  /** No pending poll has a claim over the threshold of this snapshot. */
  ghost predicate PendingBelow(th: Threshold, snap: Snapshot, polls: Polls) {
    forall id :: id in polls && polls[id].status.text == Pending ==> !SomeReached(th, snap, polls[id].votes)
  }

  lemma {:induction false} PendingStaysBelow(env: Env, states: seq<Chain>, events: seq<Event>, snap: Snapshot, n: nat)
    requires env.threshold.Valid() && Trace(env, states, events) && n < |states|
    requires forall i :: 0 <= i < n ==> states[i].staking == snap
    ensures PendingBelow(env.threshold, snap, states[n].polls)
  {
    if n > 0 {
      var s, e, s' := states[n - 1], events[n - 1], states[n];
      PendingStaysBelow(env, states, events, snap, n - 1);
      assert Step(env, s, e, s');
      if e.Deliver? {
        DeliverCases(env, s, e.msg, s');
        if s' != s {
          var status :| Records(env, s, e.msg, status, s');
          var poll := s'.polls[MsgId(e.msg)];
          DecisionMeaning(env.threshold, snap, poll.votes, PollOf(s.polls, MsgId(e.msg)).status, status);
        }
      }
    }
  }

  lemma FixedStakeUnambiguous(env: Env, s: Chain, msg: EthBridgeClaim)
    requires env.threshold.Valid() && s.staking.Valid() && PendingBelow(env.threshold, s.staking, s.polls)
    ensures Unambiguous(env, s, msg)
  {
    var poll, ballot := PollOf(s.polls, MsgId(msg)), MsgBallot(env, msg);
    var votes := poll.votes[ballot.voter := ballot.claim];
    if Refusal(s.staking, s.polls, MsgId(msg), ballot) == None {
      assert !SomeReached(env.threshold, s.staking, poll.votes);
      forall st, st' |
        Decides(env.threshold, s.staking, votes, poll.status, st) &&
        Decides(env.threshold, s.staking, votes, poll.status, st')
        ensures st == st'
      {
        DecidingVoteDeterminesStatus(env.threshold, s.staking, poll.votes, ballot, poll.status, st, st');
      }
    }
  }

  /** Under any threshold, replicas also stay alike for as long as the stake does not change. */
  lemma FixedStakeReplicasAgree(env: Env, one: seq<Chain>, other: seq<Chain>, events: seq<Event>, snap: Snapshot)
    requires env.threshold.Valid() && snap.Valid() && (forall s :: s in one ==> s.staking == snap)
    requires Trace(env, one, events) && Trace(env, other, events) && one[0] == other[0]
    ensures one == other
  {
    forall i | 0 <= i < |events| ensures StepUnambiguous(env, one[i], events[i]) {
      assert forall j :: 0 <= j <= i ==> one[j] in one;
      PendingStaysBelow(env, one, events, snap, i);
      if events[i].Deliver? {
        FixedStakeUnambiguous(env, one[i], events[i].msg);
      }
    }
    forall n | 0 <= n < |one| ensures one[n] == other[n] {
      TracesDetermined(env, one, other, events, n);
    }
  }

  // ---------------------------------------------------------------- the exact condition

  /** A message on which visiting orders disagree leads to two different states. */
  lemma AmbiguousDiverges(env: Env, s: Chain, msg: EthBridgeClaim) returns (s1: Chain, s2: Chain)
    requires !Unambiguous(env, s, msg) && PayoutAccepted(env, s, msg) && PayoutReadable(env, s, msg)
    ensures Step(env, s, Deliver(msg), s1) && Step(env, s, Deliver(msg), s2) && s1 != s2
  {
    var id, ballot := MsgId(msg), MsgBallot(env, msg);
    var poll := PollOf(s.polls, id);
    var votes := poll.votes[ballot.voter := ballot.claim];
    var st, st' :|
      Decides(env.threshold, s.staking, votes, poll.status, st) &&
      Decides(env.threshold, s.staking, votes, poll.status, st') && st != st';
    s1 := RecordedStep(env, s, msg, st);
    s2 := RecordedStep(env, s, msg, st');
    assert s1.polls[id].status != s2.polls[id].status;
  }

  lemma RecordedStep(env: Env, s: Chain, msg: EthBridgeClaim, status: Status) returns (s': Chain)
    requires Rejection(msg) == None && MayDecide(env, s, msg, status)
    requires PayoutAccepted(env, s, msg) && PayoutReadable(env, s, msg)
    ensures Step(env, s, Deliver(msg), s') && MsgId(msg) in s'.polls && s'.polls[MsgId(msg)].status == status
  {
    var id, ballot := MsgId(msg), MsgBallot(env, msg);
    var poll := Poll(PollOf(s.polls, id).votes[ballot.voter := ballot.claim], status);
    s' := Chain(s.polls[id := poll], Paid(env, s.bank, status), s.staking);
    RecordIsStep(env, s, msg, status, s');
  }

  lemma TracePrefix(env: Env, states: seq<Chain>, events: seq<Event>, n: nat)
    requires Trace(env, states, events) && n <= |events|
    ensures Trace(env, states[..n + 1], events[..n])
  {
    forall i | 0 <= i < n ensures Step(env, states[..n + 1][i], events[..n][i], states[..n + 1][i + 1]) {
      assert Step(env, states[i], events[i], states[i + 1]);
    }
  }

  /** A run that takes another way at step i. */
  lemma OtherRun(env: Env, one: seq<Chain>, events: seq<Event>, i: nat, s: Chain) returns (other: seq<Chain>)
    requires Trace(env, one, events) && i < |events| && Step(env, one[i], events[i], s)
    ensures Trace(env, other, events) && other[0] == one[0] && other[i + 1] == s
  {
    TracePrefix(env, one, events, i);
    TraceExtends(env, one[..i + 1], events[..i], events[i], s);
    var start := one[..i + 1] + [s];
    other := RunContinues(env, start, events[..i] + [events[i]], events[i + 1..]);
    assert events[..i] + [events[i]] + events[i + 1..] == events;
    assert other[i + 1] == start[i + 1] && other[0] == start[0];
  }

  lemma AmbiguousRunDiverges(env: Env, one: seq<Chain>, events: seq<Event>, i: nat) returns (other: seq<Chain>)
    requires env.threshold.Valid() && (forall bank, a, coins :: env.accepts(bank, a, coins))
    requires Trace(env, one, events) && i < |events| && !StepUnambiguous(env, one[i], events[i])
    ensures Trace(env, other, events) && other[0] == one[0] && other != one
  {
    ReachablePayoutReadable(env, one, events, i, events[i].msg);
    var s1, s2 := AmbiguousDiverges(env, one[i], events[i].msg);
    other := OtherRun(env, one, events, i, if s1 != one[i + 1] then s1 else s2);
  }

  /**
   Under any threshold and any changes of stake, with a bank that takes deposits: every replica that executes the same
   events takes the same way as this one exactly if no step of it was ambiguous.
   */
  lemma ReplicasAgreeExactly(env: Env, one: seq<Chain>, events: seq<Event>)
    requires env.threshold.Valid() && (forall bank, a, coins :: env.accepts(bank, a, coins))
    requires Trace(env, one, events)
    ensures (forall other :: Trace(env, other, events) && other[0] == one[0] ==> other == one)
        <==> forall i :: 0 <= i < |events| ==> StepUnambiguous(env, one[i], events[i])
  {
    if i :| 0 <= i < |events| && !StepUnambiguous(env, one[i], events[i]) {
      var other := AmbiguousRunDiverges(env, one, events, i);
    } else {
      forall other | Trace(env, other, events) && other[0] == one[0] ensures other == one {
        forall n | 0 <= n < |one| ensures one[n] == other[n] {
          TracesDetermined(env, one, other, events, n);
        }
      }
    }
  }
}
