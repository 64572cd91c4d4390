/** The converse of the end-to-end bound: what enough honest validators relay is minted. */
module Liveness {
  import opened Wrappers
  import opened Addresses
  import opened Consensus
  import opened Voting
  import opened BridgeClaims
  import opened BridgeMachine
  import opened BridgeRuns
  import opened Relayer
  import opened PollRuns
  import opened EndToEnd
  import Escrow
  import EscrowRuns

  /** No other lock event of the log is voted on in the same prophecy. */
  ghost predicate OwnProphecy(lib: Library, log: seq<Escrow.LogEvent>, k: nat) {
    && k < |log| && log[k].LogLock?
    && forall j :: 0 <= j < |log| && log[j].LogLock? && LockId(lib, log[j]) == LockId(lib, log[k]) ==> j == k
  }

  /** On every run a lock has its own prophecy, unless its nonce and another one of the same sender both are clamped. */
  lemma OwnProphecyExactly(b: Bridge, states: seq<System>, actions: seq<Action>, n: nat, k: nat)
    requires SystemTrace(b, states, actions) && Escrow.Start(states[0].eth) && n < |states|
    requires k < |states[n].eth.log| && states[n].eth.log[k].LogLock?
    ensures
      var log := states[n].eth.log;
      OwnProphecy(b.lib, log, k) <==>
        log[k].nonce < MAX_INT64 ||
        forall j :: 0 <= j < |log| && log[j].LogLock? && log[j].from == log[k].from && j != k ==>
          log[j].nonce < MAX_INT64
  {
    var log := states[n].eth.log;
    var txs := EthereumRun(b, states, actions, n);
    EscrowRuns.LockNoncesIncrease(states[0].eth, txs);
    forall j | 0 <= j < |log| && log[j].LogLock?
      ensures LockId(b.lib, log[j]) == LockId(b.lib, log[k]) <==>
                log[j].from == log[k].from && ClampedNonce(log[j].nonce) == ClampedNonce(log[k].nonce)
    {
      SharedPropheciesExactly(b.lib, log[j], log[k]);
    }
  }

  /** An honest validator's messages on the prophecy of a lock event carry that event's claim. */
  lemma HonestMessage(
    b: Bridge, states: seq<System>, actions: seq<Action>, n: nat, k: nat, i: nat, msg: EthBridgeClaim)
    requires SystemTrace(b, states, actions) && i < n < |states| && OwnProphecy(b.lib, states[n].eth.log, k)
    requires actions[i] == OnCosmos(Deliver(msg)) && MsgId(msg) == LockId(b.lib, states[n].eth.log[k])
    requires msg.validator !in b.faulty
    ensures MsgBallot(b.env, msg).claim == ClaimText(b.lib.codec, EventClaim(b.lib, states[n].eth.log[k]))
  {
    var log := states[n].eth.log;
    assert SystemStep(b, states[i], actions[i], states[i + 1]);
    var k': nat :| Relays(b, states[i].eth.log, msg, k');
    LogPrefix(b, states, actions, i, n);
    assert log[k'] == states[i].eth.log[k'];
    assert LockId(b.lib, log[k']) == MsgId(msg);
  }

  // ---------------------------------------------------------------- one vote

  /** These validators are bonded, not faulty, and hold strictly more than the threshold of a covering total power. */
  ghost predicate Prevails(b: Bridge, snap: Snapshot, vs: set<Bytes>, c: string) {
    && snap.Covers() && vs <= snap.bonded.Keys - b.faulty
    && !b.env.threshold.NotAbove(Support(snap, AllFor(vs, c), c), snap.totalPower)
  }

  /**
   The honest votes are for c; the poll has not failed, has succeeded only for c, and is pending only while some of vs
   have not voted.
   */
  ghost predicate OnCourse(b: Bridge, poll: Poll, vs: set<Bytes>, c: string) {
    && (forall v :: v in poll.votes && v !in b.faulty ==> poll.votes[v] == c)
    && poll.status.text != Failed
    && (poll.status.text == Success ==> poll.status.finalClaim == c)
    && (poll.status.text == Pending ==> !(vs <= poll.votes.Keys))
  }

  /** While the faulty validators stay below the threshold, only the claim of the others can reach it. */
  lemma OnlyHonestClaim(b: Bridge, snap: Snapshot, votes: Votes, c: string, prior: Status, status: Status)
    requires b.env.threshold.Valid() && FaultyMinority(b, snap) && prior.text == Pending
    requires forall v :: v in votes && v !in b.faulty ==> votes[v] == c
    requires Decides(b.env.threshold, snap, votes, prior, status) && status.text == Success
    ensures status.finalClaim == c
  {
    DecisionMeaning(b.env.threshold, snap, votes, prior, status);
    var v := HonestSupporter(b, snap, votes, status.finalClaim);
  }

  /** While vs may still all vote for c, the poll is not hopeless; once they have, c is over the threshold. */
  lemma PrevailingClaim(b: Bridge, snap: Snapshot, votes: Votes, vs: set<Bytes>, c: string)
    requires b.env.threshold.Valid() && Prevails(b, snap, vs, c)
    requires forall v :: v in votes && v !in b.faulty ==> votes[v] == c
    ensures !Hopeless(b.env.threshold, snap, votes)
    ensures vs <= votes.Keys ==> SomeReached(b.env.threshold, snap, votes)
  {
    var th, more := b.env.threshold, Joined(votes, vs, c);
    JoinedCovers(snap, votes, vs, c);
    SupportMonotone(snap, votes, more, c);
    SupportBounds(snap, more, c);
    ThresholdMonotone(th, Support(snap, AllFor(vs, c), c), BestPossible(snap, votes, c), snap.totalPower);
    if vs <= votes.Keys {
      PrevailingReaches(th, snap, votes, vs, c);
    }
  }

  lemma PrevailingReaches(th: Threshold, snap: Snapshot, votes: Votes, vs: set<Bytes>, c: string)
    requires th.Valid() && snap.Valid() && vs <= votes.Keys && (forall v :: v in vs ==> votes[v] == c)
    requires !th.NotAbove(Support(snap, AllFor(vs, c), c), snap.totalPower)
    ensures SomeReached(th, snap, votes)
  {
    SupportMonotone(snap, AllFor(vs, c), votes, c);
    ThresholdMonotone(th, Support(snap, AllFor(vs, c), c), Support(snap, votes, c), snap.totalPower);
    assert 0 <= th.num * snap.totalPower;
    if c !in votes.Values {
      UnvotedClaimHasNoSupport(snap, votes, c);
    }
  }

  lemma BallotKeepsCourse(
    b: Bridge, snap: Snapshot, poll: Poll, ballot: Ballot, poll': Poll, vs: set<Bytes>, c: string)
    requires b.env.threshold.Valid() && FaultyMinority(b, snap) && Prevails(b, snap, vs, c)
    requires OnCourse(b, poll, vs, c) && Submits(b.env.threshold, snap, poll, ballot, poll')
    requires ballot.voter !in b.faulty ==> ballot.claim == c
    ensures OnCourse(b, poll', vs, c)
  {
    if Admissible(snap, poll, ballot) {
      DecisionMeaning(b.env.threshold, snap, poll'.votes, poll.status, poll'.status);
      PrevailingClaim(b, snap, poll'.votes, vs, c);
      if poll'.status.text == Success {
        OnlyHonestClaim(b, snap, poll'.votes, c, poll.status, poll'.status);
      }
    }
  }

  /** A delivered message on the prophecy acts as a ballot, because the bank is only ever asked for the deposit of c. */
  lemma VoteKeepsCourse(b: Bridge, s: System, msg: EthBridgeClaim, s': System, vs: set<Bytes>, c: string)
    requires b.env.threshold.Valid() && SystemStep(b, s, OnCosmos(Deliver(msg)), s')
    requires Rejection(msg) == None && (msg.validator !in b.faulty ==> MsgBallot(b.env, msg).claim == c)
    requires Prevails(b, s.cosmos.staking, vs, c) && Readable(b.env, c) && !Refuses(b.env, s.cosmos.bank, c)
    requires OnCourse(b, PollOf(s.cosmos.polls, MsgId(msg)), vs, c)
    ensures
      var id, ballot := MsgId(msg), MsgBallot(b.env, msg);
      && Submits(b.env.threshold, s.cosmos.staking, PollOf(s.cosmos.polls, id), ballot, PollOf(s'.cosmos.polls, id))
      && OnCourse(b, PollOf(s'.cosmos.polls, id), vs, c)
  {
    var id, ballot := MsgId(msg), MsgBallot(b.env, msg);
    var poll := PollOf(s.cosmos.polls, id);
    forall status | MayDecide(b.env, s.cosmos, msg, status) && status.text == Success
      ensures status.finalClaim == c
    {
      OnlyHonestClaim(b, s.cosmos.staking, poll.votes[ballot.voter := ballot.claim], c, poll.status, status);
    }
    IdNotEmpty(msg);
    StepSubmits(b.env, s.cosmos, msg, s'.cosmos);
    BallotKeepsCourse(b, s.cosmos.staking, poll, ballot, PollOf(s'.cosmos.polls, id), vs, c);
  }

  // ---------------------------------------------------------------- a whole run

  predicate VotesOn(a: Action, id: string) {
    a.OnCosmos? && Concerns(a.e, id)
  }

  /** Whenever a message on this prophecy is delivered, vs prevail and the bank takes the deposit of c. */
  ghost predicate Favourable(
    b: Bridge, states: seq<System>, actions: seq<Action>, n: nat, id: string, vs: set<Bytes>, c: string)
    requires n <= |actions| < |states|
  {
    forall j :: 0 <= j < n && VotesOn(actions[j], id) ==>
      Prevails(b, states[j].cosmos.staking, vs, c) && !Refuses(b.env, states[j].cosmos.bank, c)
  }

  /** The messages of validators that are not faulty on this prophecy are for c. */
  ghost predicate HonestFor(b: Bridge, actions: seq<Action>, n: nat, id: string, c: string)
    requires n <= |actions|
  {
    forall j :: 0 <= j < n && VotesOn(actions[j], id) && actions[j].e.msg.validator !in b.faulty ==>
      MsgBallot(b.env, actions[j].e.msg).claim == c
  }

  /** A message of v on this prophecy was delivered among the first n actions. */
  ghost predicate Voiced(actions: seq<Action>, n: nat, id: string, v: Bytes)
    requires n <= |actions|
  {
    exists j :: 0 <= j < n && VotesOn(actions[j], id) && actions[j].e.msg.validator == v
  }

  lemma StepKeepsCourse(b: Bridge, s: System, a: Action, s': System, id: string, vs: set<Bytes>, c: string)
    requires b.env.threshold.Valid() && SystemStep(b, s, a, s') && Readable(b.env, c)
    requires VotesOn(a, id) ==>
               && Prevails(b, s.cosmos.staking, vs, c) && !Refuses(b.env, s.cosmos.bank, c)
               && (a.e.msg.validator !in b.faulty ==> MsgBallot(b.env, a.e.msg).claim == c)
    requires OnCourse(b, PollOf(s.cosmos.polls, id), vs, c)
    ensures OnCourse(b, PollOf(s'.cosmos.polls, id), vs, c)
    ensures
      var poll, poll' := PollOf(s.cosmos.polls, id), PollOf(s'.cosmos.polls, id);
      poll'.status.text == Pending ==>
        && poll.status.text == Pending && poll.votes.Keys <= poll'.votes.Keys
        && (VotesOn(a, id) && a.e.msg.validator in vs ==> a.e.msg.validator in poll'.votes)
  {
    if VotesOn(a, id) {
      VoteKeepsCourse(b, s, a.e.msg, s', vs, c);
    } else if a.OnCosmos? {
      OtherEventKeeps(b.env, s.cosmos, a.e, s'.cosmos, id);
    }
  }

  /** At every point of the run the poll is on course, and while it is pending the messages of vs have been counted. */
  lemma {:induction false} CourseOfRun(
    b: Bridge, states: seq<System>, actions: seq<Action>, n: nat, id: string, vs: set<Bytes>, c: string)
    requires b.env.threshold.Valid() && SystemTrace(b, states, actions) && n < |states| && vs != {}
    requires Readable(b.env, c) && HonestFor(b, actions, n, id, c) && Favourable(b, states, actions, n, id, vs, c)
    ensures OnCourse(b, PollOf(states[n].cosmos.polls, id), vs, c)
    ensures
      var poll := PollOf(states[n].cosmos.polls, id);
      poll.status.text == Pending ==> forall v :: v in vs && Voiced(actions, n, id, v) ==> v in poll.votes
  {
    if n > 0 {
      CourseOfRun(b, states, actions, n - 1, id, vs, c);
      StepKeepsCourse(b, states[n - 1], actions[n - 1], states[n], id, vs, c);
    }
  }

  /** Validator v's message about this lock has been delivered. */
  predicate Sent(b: Bridge, actions: seq<Action>, v: Bytes, e: Escrow.LogEvent)
    requires e.LogLock?
  {
    OnCosmos(Deliver(Payload(b.lib, v, e))) in actions
  }

  lemma SentIsVoiced(b: Bridge, actions: seq<Action>, n: nat, v: Bytes, e: Escrow.LogEvent)
    requires e.LogLock? && Recipient(b.lib, e.to) != [] && n <= |actions| && Sent(b, actions[..n], v, e)
    ensures Voiced(actions, n, LockId(b.lib, e), v)
  {
    HexIsValid(b.lib, e.from);
    var j :| 0 <= j < n && actions[j] == OnCosmos(Deliver(Payload(b.lib, v, e)));
    assert VotesOn(actions[j], LockId(b.lib, e));
  }

  /**
   The converse of the bound, under every threshold and any changes of stake. Once validators vs, none of them faulty,
   have relayed a lock event with a readable recipient and its own prophecy, that prophecy has succeeded with the
   event's claim and has been paid, whatever all others sent or did not send and in whichever order the messages
   arrived. It suffices that, whenever a message on this prophecy was delivered, vs were bonded with strictly more than
   the threshold of a total power that covers the bonded power, and the bank took this deposit.
   */
  lemma RelayedLockIsMinted(b: Bridge, states: seq<System>, actions: seq<Action>, n: nat, k: nat, vs: set<Bytes>)
    requires b.env.threshold.Valid() && SystemTrace(b, states, actions) && n < |states| && vs != {}
    requires OwnProphecy(b.lib, states[n].eth.log, k) && Recipient(b.lib, states[n].eth.log[k].to) != []
    requires forall v :: v in vs ==> Sent(b, actions[..n], v, states[n].eth.log[k])
    requires
      var e := states[n].eth.log[k];
      Favourable(b, states, actions, n, LockId(b.lib, e), vs, ClaimText(b.lib.codec, EventClaim(b.lib, e)))
    ensures
      var e := states[n].eth.log[k];
      var poll := PollOf(states[n].cosmos.polls, LockId(b.lib, e));
      && poll.status == Status(Success, ClaimText(b.lib.codec, EventClaim(b.lib, e)))
      && PaidClaim(b.env, poll) == Some(EventClaim(b.lib, e))
  {
    var e := states[n].eth.log[k];
    var id, c := LockId(b.lib, e), ClaimText(b.lib.codec, EventClaim(b.lib, e));
    ClaimRoundTrip(b.lib.codec, EventClaim(b.lib, e));
    forall j | 0 <= j < n && VotesOn(actions[j], id) && actions[j].e.msg.validator !in b.faulty
      ensures MsgBallot(b.env, actions[j].e.msg).claim == c
    {
      HonestMessage(b, states, actions, n, k, j, actions[j].e.msg);
    }
    CourseOfRun(b, states, actions, n, id, vs, c);
    forall v | v in vs ensures Voiced(actions, n, id, v) {
      SentIsVoiced(b, actions, n, v, e);
    }
  }
}
