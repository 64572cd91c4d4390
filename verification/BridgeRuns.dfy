/** What holds of every run of messages and stake changes on the Cosmos side. */
module BridgeRuns {
  import opened Wrappers
  import opened Addresses
  import opened Sums
  import opened Consensus
  import opened Voting
  import opened BridgeClaims
  import opened BridgeMachine

  // ---------------------------------------------------------------- finality with evidence

  ghost predicate PollSound(poll: Poll) {
    && poll.votes != map[] && "" !in poll.votes.Values
    && (poll.status.finalClaim != "" <==> poll.status.text == Success)
    && (poll.status.text == Success ==> poll.status.finalClaim in poll.votes.Values)
  }

  /**
   In every reachable state each stored poll has a claim, none of its claims is empty, and it names a final claim
   exactly when it succeeded.
   */
  lemma {:induction false} StoredPollsSound(env: Env, states: seq<Chain>, events: seq<Event>, n: nat)
    requires env.threshold.Valid() && Trace(env, states, events) && n < |states|
    ensures forall id :: id in states[n].polls ==> id != "" && PollSound(states[n].polls[id])
  {
    if n > 0 {
      StoredPollsSound(env, states, events, n - 1);
      assert Step(env, states[n - 1], events[n - 1], states[n]);
      if events[n - 1].Deliver? {
        StepKeepsSound(env, states[n - 1], events[n - 1].msg, states[n]);
      }
    }
  }

  lemma StepKeepsSound(env: Env, s: Chain, msg: EthBridgeClaim, s': Chain)
    requires env.threshold.Valid() && Step(env, s, Deliver(msg), s')
    requires forall id :: id in s.polls ==> id != "" && PollSound(s.polls[id])
    ensures forall id :: id in s'.polls ==> id != "" && PollSound(s'.polls[id])
  {
    DeliverCases(env, s, msg, s');
    if s' != s {
      var status :| Records(env, s, msg, status, s');
      var id, b := MsgId(msg), MsgBallot(env, msg);
      BallotKeepsSound(env.threshold, s.staking, PollOf(s.polls, id), b, s'.polls[id]);
      forall other | other in s'.polls && other != id
        ensures other != "" && PollSound(s'.polls[other])
      {
        assert other in s.polls && s'.polls[other] == s.polls[other];
      }
    }
  }

  lemma BallotKeepsSound(th: Threshold, snap: Snapshot, poll: Poll, b: Ballot, poll': Poll)
    requires th.Valid() && (poll == NEW_POLL || PollSound(poll))
    requires Admissible(snap, poll, b) && Submits(th, snap, poll, b, poll')
    ensures PollSound(poll')
  {
    DecisionMeaning(th, snap, poll'.votes, poll.status, poll'.status);
    assert poll'.votes[b.voter] == b.claim;
  }

  /** Once a prophecy has succeeded or failed it never changes again, whatever messages and stake changes follow. */
  lemma {:induction false} Finality(env: Env, states: seq<Chain>, events: seq<Event>, id: string, i: nat, n: nat)
    requires Trace(env, states, events) && i <= n < |states|
    requires PollOf(states[i].polls, id).status.text != Pending
    ensures id in states[n].polls && states[n].polls[id] == states[i].polls[id]
  {
    if i < n {
      Finality(env, states, events, id, i, n - 1);
      assert Step(env, states[n - 1], events[n - 1], states[n]);
      if events[n - 1].Deliver? {
        DeliverCases(env, states[n - 1], events[n - 1].msg, states[n]);
      }
    }
  }

  /** At step j the bonded validator v sent an acceptable message with this id and claim. */
  ghost predicate Cast(env: Env, states: seq<Chain>, events: seq<Event>, id: string, b: Ballot, j: nat) {
    && j < |events| < |states|
    && events[j].Deliver?
    && Rejection(events[j].msg) == None
    && MsgId(events[j].msg) == id
    && MsgBallot(env, events[j].msg) == b
    && b.voter in states[j].staking.bonded
  }

  /** Every recorded vote was cast by its validator, bonded at that time, in an acceptable message of the run. */
  lemma {:induction false} VotesWereCast(env: Env, states: seq<Chain>, events: seq<Event>, n: nat, id: string, v: Bytes)
      returns (j: nat)
    requires Trace(env, states, events) && n < |states|
    requires id in states[n].polls && v in states[n].polls[id].votes
    ensures j < n && Cast(env, states, events, id, Ballot(v, states[n].polls[id].votes[v]), j)
  {
    var s, e, s' := states[n - 1], events[n - 1], states[n];
    assert Step(env, s, e, s');
    if id in s.polls && v in s.polls[id].votes && s.polls[id].votes[v] == s'.polls[id].votes[v] {
      j := VotesWereCast(env, states, events, n - 1, id, v);
    } else {
      NewVoteCast(env, s, e, s', id, v);
      j := n - 1;
    }
  }

  /** A vote that was not there before was cast by this event. */
  lemma NewVoteCast(env: Env, s: Chain, e: Event, s': Chain, id: string, v: Bytes)
    requires Step(env, s, e, s') && id in s'.polls && v in s'.polls[id].votes
    requires id in s.polls && v in s.polls[id].votes ==> s.polls[id].votes[v] != s'.polls[id].votes[v]
    ensures e.Deliver? && Rejection(e.msg) == None && MsgId(e.msg) == id
    ensures MsgBallot(env, e.msg) == Ballot(v, s'.polls[id].votes[v]) && v in s.staking.bonded
  {
    if e.Deliver? {
      DeliverCases(env, s, e.msg, s');
    }
  }

  /**
   At step i the prophecy turned from pending to its final, successful form, with the threshold of that step's power
   behind its final claim.
   */
  ghost predicate TurnsSuccessful(env: Env, states: seq<Chain>, events: seq<Event>, id: string, poll: Poll, i: nat) {
    && i < |events| < |states|
    && events[i].Deliver? && MsgId(events[i].msg) == id
    && PollOf(states[i].polls, id).status.text == Pending
    && id in states[i + 1].polls && states[i + 1].polls[id] == poll
    && var staking := states[i].staking;
       env.threshold.Reached(Support(staking, poll.votes, poll.status.finalClaim), staking.totalPower)
  }

  lemma {:induction false} SuccessHasEvidence(env: Env, states: seq<Chain>, events: seq<Event>, n: nat, id: string)
      returns (i: nat)
    requires env.threshold.Valid() && Trace(env, states, events) && n < |states|
    requires id in states[n].polls && states[n].polls[id].status.text == Success
    ensures i < n && TurnsSuccessful(env, states, events, id, states[n].polls[id], i)
  {
    var s, e, s' := states[n - 1], events[n - 1], states[n];
    assert Step(env, s, e, s');
    if e.StakeChange? || s' == s {
      i := SuccessHasEvidence(env, states, events, n - 1, id);
    } else {
      DeliverCases(env, s, e.msg, s');
      var status :| Records(env, s, e.msg, status, s');
      if MsgId(e.msg) == id {
        i := n - 1;
        DecisionMeaning(env.threshold, s.staking, s'.polls[id].votes, PollOf(s.polls, id).status, status);
      } else {
        i := SuccessHasEvidence(env, states, events, n - 1, id);
      }
    }
  }

  /**
   At step i the prophecy turned from pending to its final, failed form: with that step's power no claim had reached
   the threshold, and none could have exceeded it with all the power not yet claimed.
   */
  ghost predicate TurnsFailed(env: Env, states: seq<Chain>, events: seq<Event>, id: string, poll: Poll, i: nat) {
    && i < |events| < |states|
    && events[i].Deliver? && MsgId(events[i].msg) == id
    && PollOf(states[i].polls, id).status.text == Pending
    && id in states[i + 1].polls && states[i + 1].polls[id] == poll
    && !SomeReached(env.threshold, states[i].staking, poll.votes)
    && Hopeless(env.threshold, states[i].staking, poll.votes)
  }

  lemma {:induction false} FailureHasEvidence(env: Env, states: seq<Chain>, events: seq<Event>, n: nat, id: string)
      returns (i: nat)
    requires env.threshold.Valid() && Trace(env, states, events) && n < |states|
    requires id in states[n].polls && states[n].polls[id].status.text == Failed
    ensures i < n && TurnsFailed(env, states, events, id, states[n].polls[id], i)
  {
    var s, e, s' := states[n - 1], events[n - 1], states[n];
    assert Step(env, s, e, s');
    if e.StakeChange? || s' == s {
      i := FailureHasEvidence(env, states, events, n - 1, id);
    } else {
      DeliverCases(env, s, e.msg, s');
      var status :| Records(env, s, e.msg, status, s');
      if MsgId(e.msg) == id {
        i := n - 1;
        DecisionMeaning(env.threshold, s.staking, s'.polls[id].votes, PollOf(s.polls, id).status, status);
      } else {
        i := FailureHasEvidence(env, states, events, n - 1, id);
      }
    }
  }

  // ---------------------------------------------------------------- mint conservation

  function CoinSum(coins: seq<Coin>, denom: string): int {
    if coins == [] then 0
    else (if coins[0].denom == denom then coins[0].amount else 0) + CoinSum(coins[1..], denom)
  }

  function CoinTotal(coins: seq<Coin>): int {
    if coins == [] then 0 else coins[0].amount + CoinTotal(coins[1..])
  }

  /** The claim a poll has paid out, if any. */
  function PaidClaim(env: Env, poll: Poll): Option<OracleClaim> {
    if poll.status.text == Success then CreateOracleClaimFromOracleString(env.codec, poll.status.finalClaim) else None
  }

  function Award(env: Env, poll: Poll, key: (Bytes, string)): int {
    match PaidClaim(env, poll)
    case None => 0
    case Some(claim) => if claim.cosmosReceiver == key.0 then CoinSum(claim.amount, key.1) else 0
  }

  function AwardTotal(env: Env, poll: Poll): int {
    match PaidClaim(env, poll)
    case None => 0
    case Some(claim) => CoinTotal(claim.amount)
  }

  function Awards(env: Env, polls: Polls, key: (Bytes, string)): map<string, int> {
    map id | id in polls :: Award(env, polls[id], key)
  }

  function AwardTotals(env: Env, polls: Polls): map<string, int> {
    map id | id in polls :: AwardTotal(env, polls[id])
  }

  lemma {:induction false} AddCoinsEffect(bank: Bank, a: Bytes, coins: seq<Coin>, key: (Bytes, string))
    ensures Lookup(AddCoins(bank, a, coins), key) == Lookup(bank, key) + if a == key.0 then CoinSum(coins, key.1) else 0
    ensures MapSum(AddCoins(bank, a, coins)) == MapSum(bank) + CoinTotal(coins)
    decreases |coins|
  {
    if coins != [] {
      var k := (a, coins[0].denom);
      var next := bank[k := Lookup(bank, k) + coins[0].amount];
      SumUpdate(bank, k, next[k]);
      AddCoinsEffect(next, a, coins[1..], key);
    }
  }

  lemma AwardsUpdate(env: Env, polls: Polls, id: string, poll: Poll, key: (Bytes, string))
    requires PollOf(polls, id).status.text == Pending
    ensures MapSum(Awards(env, polls[id := poll], key)) == MapSum(Awards(env, polls, key)) + Award(env, poll, key)
  {
    assert Awards(env, polls[id := poll], key) == Awards(env, polls, key)[id := Award(env, poll, key)];
    SumUpdate(Awards(env, polls, key), id, Award(env, poll, key));
  }

  lemma AwardTotalsUpdate(env: Env, polls: Polls, id: string, poll: Poll)
    requires PollOf(polls, id).status.text == Pending
    ensures MapSum(AwardTotals(env, polls[id := poll])) == MapSum(AwardTotals(env, polls)) + AwardTotal(env, poll)
  {
    assert AwardTotals(env, polls[id := poll]) == AwardTotals(env, polls)[id := AwardTotal(env, poll)];
    SumUpdate(AwardTotals(env, polls), id, AwardTotal(env, poll));
  }

  lemma PaidIsAward(env: Env, bank: Bank, poll: Poll, key: (Bytes, string))
    ensures Lookup(Paid(env, bank, poll.status), key) == Lookup(bank, key) + Award(env, poll, key)
    ensures MapSum(Paid(env, bank, poll.status)) == MapSum(bank) + AwardTotal(env, poll)
  {
    if PaidClaim(env, poll).Some? {
      var claim := PaidClaim(env, poll).value;
      AddCoinsEffect(bank, claim.cosmosReceiver, claim.amount, key);
    }
  }

  /**
   On every run, what an account gained in a denomination is the sum of the final claims paid to it, each prophecy
   once.
   */
  lemma {:induction false} MintConservation(
    env: Env, states: seq<Chain>, events: seq<Event>, n: nat, key: (Bytes, string))
    requires Trace(env, states, events) && n < |states|
    ensures Lookup(states[n].bank, key) == Lookup(states[0].bank, key) + MapSum(Awards(env, states[n].polls, key))
    ensures MapSum(states[n].bank) == MapSum(states[0].bank) + MapSum(AwardTotals(env, states[n].polls))
  {
    if n == 0 {
      assert Awards(env, states[0].polls, key) == map[] && AwardTotals(env, states[0].polls) == map[];
    } else {
      MintConservation(env, states, events, n - 1, key);
      var s, e, s' := states[n - 1], events[n - 1], states[n];
      assert Step(env, s, e, s');
      if e.Deliver? {
        DeliverCases(env, s, e.msg, s');
        if s' != s {
          var status :| Records(env, s, e.msg, status, s');
          var id := MsgId(e.msg);
          AwardsUpdate(env, s.polls, id, s'.polls[id], key);
          AwardTotalsUpdate(env, s.polls, id, s'.polls[id]);
          PaidIsAward(env, s.bank, s'.polls[id], key);
        }
      }
    }
  }

  /**
   Every vote of a run is the printed text of some bridge claim, so it can be read back: no query over a reachable
   store fails.
   */
  lemma VotesReadable(env: Env, states: seq<Chain>, events: seq<Event>, n: nat, id: string)
    requires Trace(env, states, events) && n < |states| && id in states[n].polls
    ensures forall v :: v in states[n].polls[id].votes ==>
              CreateOracleClaimFromOracleString(env.codec, states[n].polls[id].votes[v]).Some?
  {
    forall v | v in states[n].polls[id].votes
      ensures CreateOracleClaimFromOracleString(env.codec, states[n].polls[id].votes[v]).Some?
    {
      var j := VotesWereCast(env, states, events, n, id, v);
      var msg := events[j].msg;
      ClaimRoundTrip(env.codec, OracleClaim(msg.cosmosReceiver, msg.amount));
    }
  }

  /** So is every final claim: a mint never fails because its claim cannot be read. */
  lemma FinalClaimsReadable(env: Env, states: seq<Chain>, events: seq<Event>, n: nat, id: string)
    requires env.threshold.Valid() && Trace(env, states, events) && n < |states|
    requires id in states[n].polls && states[n].polls[id].status.text == Success
    ensures PaidClaim(env, states[n].polls[id]).Some?
  {
    StoredPollsSound(env, states, events, n);
    VotesReadable(env, states, events, n, id);
    assert states[n].polls[id].status.finalClaim in states[n].polls[id].votes.Values;
  }

  // ---------------------------------------------------------------- interleaving projection

  /** The events that concern one prophecy: its own messages and every stake change. */
  function Concerning(events: seq<Event>, id: string): seq<Event> {
    if events == [] then []
    else
      var e := events[|events| - 1];
      Concerning(events[..|events| - 1], id) + if e.Deliver? && MsgId(e.msg) != id then [] else [e]
  }

  function Only(polls: Polls, id: string): Polls {
    if id in polls then map[id := polls[id]] else map[]
  }

  /** Whether a deposit is possible does not depend on what the accounts hold. */
  ghost predicate SteadyBank(env: Env) {
    forall bank, other, a, coins :: env.accepts(bank, a, coins) <==> env.accepts(other, a, coins)
  }

  /** Dropping the messages of all other prophecies leaves a run that ends with the same poll and stake. */
  lemma {:induction false} Projection(env: Env, states: seq<Chain>, events: seq<Event>, id: string, n: nat)
      returns (alone: seq<Chain>)
    requires Trace(env, states, events) && n < |states|
    requires SteadyBank(env)
    ensures Trace(env, alone, Concerning(events[..n], id))
    ensures alone[0].staking == states[0].staking
    ensures alone[|alone| - 1].polls == Only(states[n].polls, id)
    ensures alone[|alone| - 1].staking == states[n].staking
  {
    if n == 0 {
      alone := [states[0]];
    } else {
      var before := Projection(env, states, events, id, n - 1);
      var s, e, s' := states[n - 1], events[n - 1], states[n];
      assert Step(env, s, e, s');
      assert events[..n][..n - 1] == events[..n - 1];
      if e.Deliver? && MsgId(e.msg) != id {
        OtherDeliveryKeeps(env, s, e.msg, s', id);
        alone := before;
      } else {
        var last := ProjectStep(env, s, e, s', id, before[|before| - 1]);
        alone := before + [last];
        TraceExtends(env, before, Concerning(events[..n - 1], id), e, last);
      }
    }
  }

  lemma OtherDeliveryKeeps(env: Env, s: Chain, msg: EthBridgeClaim, s': Chain, id: string)
    requires Step(env, s, Deliver(msg), s') && MsgId(msg) != id
    ensures Only(s'.polls, id) == Only(s.polls, id) && s'.staking == s.staking
  {
    DeliverCases(env, s, msg, s');
  }

  lemma TraceExtends(env: Env, states: seq<Chain>, events: seq<Event>, e: Event, s: Chain)
    requires Trace(env, states, events) && Step(env, states[|states| - 1], e, s)
    ensures Trace(env, states + [s], events + [e])
  {
    var states', events' := states + [s], events + [e];
    forall i | 0 <= i < |events'|
      ensures Step(env, states'[i], events'[i], states'[i + 1])
    {
      if i < |events| {
        assert Step(env, states[i], events[i], states[i + 1]);
      }
    }
  }

  lemma ProjectStep(env: Env, s: Chain, e: Event, s': Chain, id: string, t: Chain) returns (t': Chain)
    requires Step(env, s, e, s') && (e.Deliver? ==> MsgId(e.msg) == id)
    requires SteadyBank(env)
    requires t.polls == Only(s.polls, id) && t.staking == s.staking
    ensures Step(env, t, e, t') && t'.polls == Only(s'.polls, id) && t'.staking == s'.staking
  {
    match e
    case StakeChange(staking) =>
      t' := t.(staking := staking);
    case Deliver(msg) =>
      var r :| Handles(env, s, msg, r, s');
      t' := ProjectDelivery(env, s, msg, r, s', t);
  }

  lemma ProjectDelivery(
    env: Env, s: Chain, msg: EthBridgeClaim, r: Result<StatusText, BridgeError>, s': Chain, t: Chain)
      returns (t': Chain)
    requires Handles(env, s, msg, r, s')
    requires SteadyBank(env)
    requires t.polls == Only(s.polls, MsgId(msg)) && t.staking == s.staking
    ensures Handles(env, t, msg, r, t') && t'.polls == Only(s'.polls, MsgId(msg)) && t'.staking == s'.staking
  {
    if Rejection(msg).Some? {
      t' := t;
    } else {
      var id, b := MsgId(msg), MsgBallot(env, msg);
      var answer, polls :|
        Processes(env.threshold, s.staking, s.polls, id, b, answer, polls) &&
        Finishes(env, s, answer, polls, r, s');
      ProjectProcess(env.threshold, s.staking, s.polls, id, b, answer, polls);
      t' := ProjectFinish(env, s, answer, polls, r, s', t, id);
    }
  }

  lemma ProjectProcess(
    th: Threshold, snap: Snapshot, polls: Polls, id: string, b: Ballot, r: Result<Status, OracleError>, polls': Polls)
    requires Processes(th, snap, polls, id, b, r, polls')
    ensures Processes(th, snap, Only(polls, id), id, b, r, Only(polls', id))
  {
    assert PollOf(Only(polls, id), id) == PollOf(polls, id);
  }

  lemma ProjectFinish(
    env: Env, s: Chain, answer: Result<Status, OracleError>, polls: Polls,
    r: Result<StatusText, BridgeError>, s': Chain, t: Chain, id: string) returns (t': Chain)
    requires Finishes(env, s, answer, polls, r, s')
    requires SteadyBank(env)
    requires t.polls == Only(s.polls, id) && t.staking == s.staking
    ensures Finishes(env, t, answer, Only(polls, id), r, t')
    ensures t'.polls == Only(s'.polls, id) && t'.staking == s'.staking
  {
    t' := if r.Ok? then Chain(Only(polls, id), Paid(env, t.bank, answer.value), t.staking) else t;
  }
}
