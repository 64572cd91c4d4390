/**
 The bridge as a whole: the Ethereum machine and the Cosmos machine side by side, joined by validators
 that relay lock events. Faulty validators may send anything; the others only send payloads of emitted events.
 */
module EndToEnd {
  import opened Wrappers
  import opened Addresses
  import opened Histories
  import opened Sums
  import opened Consensus
  import opened Voting
  import opened BridgeClaims
  import opened BridgeMachine
  import opened BridgeRuns
  import opened Relayer
  import Escrow
  import EscrowRuns

  datatype Bridge = Bridge(env: Env, lib: Library, faulty: set<Bytes>)

  datatype System = System(eth: Escrow.World, cosmos: Chain)

  datatype Action = OnEthereum(tx: Escrow.Tx) | OnCosmos(e: Event)

  ghost function FaultyPower(b: Bridge, snap: Snapshot): int {
    MapSum(map v | v in b.faulty :: snap.Power(v))
  }

  /** The validator of this message saw a lock event and sends its payload. */
  ghost predicate Relays(b: Bridge, log: seq<Escrow.LogEvent>, msg: EthBridgeClaim, k: nat) {
    k < |log| && log[k].LogLock? && msg == Payload(b.lib, msg.validator, log[k])
  }

  ghost predicate Honest(b: Bridge, log: seq<Escrow.LogEvent>, e: Event) {
    e.Deliver? && e.msg.validator !in b.faulty ==> exists k: nat :: Relays(b, log, e.msg, k)
  }

  ghost predicate FaultyMinority(b: Bridge, snap: Snapshot) {
    !b.env.threshold.Reached(FaultyPower(b, snap), snap.totalPower)
  }

  ghost predicate SystemStep(b: Bridge, s: System, a: Action, s': System) {
    match a
    case OnEthereum(tx) => s' == System(Escrow.Step(s.eth, tx), s.cosmos)
    case OnCosmos(e) =>
      && s'.eth == s.eth && Step(b.env, s.cosmos, e, s'.cosmos)
      && Honest(b, s.eth.log, e) && FaultyMinority(b, s.cosmos.staking)
  }

  ghost predicate SystemTrace(b: Bridge, states: seq<System>, actions: seq<Action>) {
    && b.env.codec == b.lib.codec
    && |states| == |actions| + 1
    && states[0].cosmos.polls == map[]
    && forall i {:trigger actions[i]} :: 0 <= i < |actions| ==> SystemStep(b, states[i], actions[i], states[i + 1])
  }

  // ---------------------------------------------------------------- every success is backed by a lock

  function EventClaim(lib: Library, e: Escrow.LogEvent): OracleClaim
    requires e.LogLock?
  {
    OracleClaim(Recipient(lib, e.to), Amount(lib, e.value))
  }

  /** Lock event k is the one this prophecy and claim speak about. */
  ghost predicate Backs(lib: Library, log: seq<Escrow.LogEvent>, id: string, claim: string, k: nat) {
    && k < |log| && log[k].LogLock?
    && Recipient(lib, log[k].to) != []
    && id == LockId(lib, log[k])
    && claim == ClaimText(lib.codec, EventClaim(lib, log[k]))
  }

  ghost predicate Backed(lib: Library, log: seq<Escrow.LogEvent>, id: string, claim: string) {
    exists k: nat :: Backs(lib, log, id, claim, k)
  }

  /** Votes of honest validators and final claims all speak about emitted lock events. */
  ghost predicate PollBacked(b: Bridge, log: seq<Escrow.LogEvent>, id: string, poll: Poll) {
    && (forall v :: v in poll.votes && v !in b.faulty ==> Backed(b.lib, log, id, poll.votes[v]))
    && (poll.status.text == Success ==> Backed(b.lib, log, id, poll.status.finalClaim))
  }

  ghost predicate AllBacked(b: Bridge, s: System) {
    forall id :: id in s.cosmos.polls ==> PollBacked(b, s.eth.log, id, s.cosmos.polls[id])
  }

  lemma BackedStays(lib: Library, log: seq<Escrow.LogEvent>, log': seq<Escrow.LogEvent>, id: string, claim: string)
    requires log <= log' && Backed(lib, log, id, claim)
    ensures Backed(lib, log', id, claim)
  {
    var k: nat :| Backs(lib, log, id, claim, k);
    assert Backs(lib, log', id, claim, k);
  }

  /** If only faulty validators supported a claim, it would not reach the threshold. */
  lemma HonestSupporter(b: Bridge, snap: Snapshot, votes: Votes, claim: string) returns (v: Bytes)
    requires b.env.threshold.Valid() && FaultyMinority(b, snap)
    requires b.env.threshold.Reached(Support(snap, votes, claim), snap.totalPower)
    ensures v in votes && votes[v] == claim && v !in b.faulty
  {
    var faultyMap := map u | u in b.faulty :: snap.Power(u);
    if forall u :: u in votes && votes[u] == claim ==> u in b.faulty {
      SumLeq(SupportMap(snap, votes, claim), faultyMap);
      ThresholdMonotone(b.env.threshold, Support(snap, votes, claim), FaultyPower(b, snap), snap.totalPower);
    }
    v :| v in votes && votes[v] == claim && v !in b.faulty;
  }

  lemma RelayedVoteBacked(b: Bridge, log: seq<Escrow.LogEvent>, msg: EthBridgeClaim, k: nat)
    requires b.env.codec == b.lib.codec && Relays(b, log, msg, k) && Rejection(msg) == None
    ensures Backed(b.lib, log, MsgId(msg), MsgBallot(b.env, msg).claim)
  {
    assert Backs(b.lib, log, MsgId(msg), MsgBallot(b.env, msg).claim, k);
  }

  lemma RecordKeepsBacked(
    b: Bridge, log: seq<Escrow.LogEvent>, s: Chain, msg: EthBridgeClaim, status: Status, s': Chain)
    requires b.env.threshold.Valid() && b.env.codec == b.lib.codec
    requires Records(b.env, s, msg, status, s')
    requires Honest(b, log, Deliver(msg)) && FaultyMinority(b, s.staking)
    requires MsgId(msg) in s.polls ==> PollBacked(b, log, MsgId(msg), s.polls[MsgId(msg)])
    ensures PollBacked(b, log, MsgId(msg), s'.polls[MsgId(msg)])
  {
    var id := MsgId(msg);
    var votes := s'.polls[id].votes;
    VoteBacked(b, log, msg, PollOf(s.polls, id).votes);
    DecisionBacked(b, log, s.staking, id, votes, PollOf(s.polls, id).status, status);
  }

  lemma VoteBacked(b: Bridge, log: seq<Escrow.LogEvent>, msg: EthBridgeClaim, votes: Votes)
    requires b.env.codec == b.lib.codec && Rejection(msg) == None && Honest(b, log, Deliver(msg))
    requires forall v :: v in votes && v !in b.faulty ==> Backed(b.lib, log, MsgId(msg), votes[v])
    ensures
      var votes' := votes[msg.validator := MsgBallot(b.env, msg).claim];
      forall v :: v in votes' && v !in b.faulty ==> Backed(b.lib, log, MsgId(msg), votes'[v])
  {
    if msg.validator !in b.faulty {
      var k: nat :| Relays(b, log, msg, k);
      RelayedVoteBacked(b, log, msg, k);
    }
  }

  lemma DecisionBacked(
    b: Bridge, log: seq<Escrow.LogEvent>, snap: Snapshot, id: string, votes: Votes, prior: Status, status: Status)
    requires b.env.threshold.Valid() && FaultyMinority(b, snap) && prior.text == Pending
    requires Decides(b.env.threshold, snap, votes, prior, status)
    requires forall v :: v in votes && v !in b.faulty ==> Backed(b.lib, log, id, votes[v])
    ensures status.text == Success ==> Backed(b.lib, log, id, status.finalClaim)
  {
    DecisionMeaning(b.env.threshold, snap, votes, prior, status);
    if status.text == Success {
      var v := HonestSupporter(b, snap, votes, status.finalClaim);
    }
  }

  lemma {:induction false} EverythingBacked(b: Bridge, states: seq<System>, actions: seq<Action>, n: nat)
    requires b.env.threshold.Valid() && SystemTrace(b, states, actions) && n < |states|
    ensures AllBacked(b, states[n])
  {
    if n > 0 {
      EverythingBacked(b, states, actions, n - 1);
      assert SystemStep(b, states[n - 1], actions[n - 1], states[n]);
      StepKeepsBacked(b, states[n - 1], actions[n - 1], states[n]);
    }
  }

  lemma StepKeepsBacked(b: Bridge, s: System, a: Action, s': System)
    requires b.env.threshold.Valid() && b.env.codec == b.lib.codec
    requires SystemStep(b, s, a, s') && AllBacked(b, s)
    ensures AllBacked(b, s')
  {
    match a
    case OnEthereum(tx) =>
      EscrowRuns.StepExtendsLog(s.eth, tx);
      forall id | id in s'.cosmos.polls ensures PollBacked(b, s'.eth.log, id, s'.cosmos.polls[id]) {
        PollBackedStays(b, s.eth.log, s'.eth.log, id, s.cosmos.polls[id]);
      }
    case OnCosmos(e) =>
      if e.Deliver? {
        DeliveryKeepsBacked(b, s, e.msg, s');
      }
  }

  lemma DeliveryKeepsBacked(b: Bridge, s: System, msg: EthBridgeClaim, s': System)
    requires b.env.threshold.Valid() && b.env.codec == b.lib.codec
    requires SystemStep(b, s, OnCosmos(Deliver(msg)), s') && AllBacked(b, s)
    ensures AllBacked(b, s')
  {
    DeliverCases(b.env, s.cosmos, msg, s'.cosmos);
    if s'.cosmos != s.cosmos {
      var status :| Records(b.env, s.cosmos, msg, status, s'.cosmos);
      RecordKeepsBacked(b, s.eth.log, s.cosmos, msg, status, s'.cosmos);
      assert forall id :: id in s'.cosmos.polls && id != MsgId(msg) ==>
        id in s.cosmos.polls && s'.cosmos.polls[id] == s.cosmos.polls[id];
    }
  }

  lemma PollBackedStays(b: Bridge, log: seq<Escrow.LogEvent>, log': seq<Escrow.LogEvent>, id: string, poll: Poll)
    requires log <= log' && PollBacked(b, log, id, poll)
    ensures PollBacked(b, log', id, poll)
  {
    forall claim | Backed(b.lib, log, id, claim) ensures Backed(b.lib, log', id, claim) {
      BackedStays(b.lib, log, log', id, claim);
    }
  }

  // ---------------------------------------------------------------- the Cosmos side of a run

  /** The Cosmos messages and stake changes of a run form a run of the Cosmos machine. */
  lemma {:induction false} CosmosRun(b: Bridge, states: seq<System>, actions: seq<Action>, n: nat)
      returns (chains: seq<Chain>, events: seq<Event>)
    requires SystemTrace(b, states, actions) && n < |states|
    ensures Trace(b.env, chains, events)
    ensures chains[0] == states[0].cosmos && chains[|chains| - 1] == states[n].cosmos
    ensures events == CosmosEvents(actions[..n])
    ensures forall c :: c in chains ==> exists i :: 0 <= i <= n && c == states[i].cosmos
  {
    if n == 0 {
      chains, events := [states[0].cosmos], [];
    } else {
      chains, events := CosmosRun(b, states, actions, n - 1);
      assert SystemStep(b, states[n - 1], actions[n - 1], states[n]);
      assert actions[..n][..n - 1] == actions[..n - 1];
      if actions[n - 1].OnCosmos? {
        TraceExtends(b.env, chains, events, actions[n - 1].e, states[n].cosmos);
        chains, events := chains + [states[n].cosmos], events + [actions[n - 1].e];
      }
    }
  }

  function CosmosEvents(actions: seq<Action>): seq<Event> {
    if actions == [] then []
    else
      var a := actions[|actions| - 1];
      CosmosEvents(actions[..|actions| - 1]) + if a.OnCosmos? then [a.e] else []
  }

  // ---------------------------------------------------------------- the bound

  /** The values of the lock events, by position in the log. */
  function LockValues(log: seq<Escrow.LogEvent>): map<nat, int> {
    map k: nat | k < |log| && log[k].LogLock? :: log[k].value
  }

  ghost function LockedValue(log: seq<Escrow.LogEvent>): int {
    MapSum(LockValues(log))
  }

  predicate Minted(s: System, id: string) {
    id in s.cosmos.polls && s.cosmos.polls[id].status.text == Success
  }

  /** The lock event behind each successful prophecy. */
  ghost predicate IsBacking(b: Bridge, s: System, backing: map<string, nat>) {
    forall id :: Minted(s, id) ==>
      id in backing && Backs(b.lib, s.eth.log, id, s.cosmos.polls[id].status.finalClaim, backing[id])
  }

  lemma BackingExists(b: Bridge, s: System) returns (backing: map<string, nat>)
    requires AllBacked(b, s)
    ensures IsBacking(b, s, backing)
  {
    backing := map id | id in s.cosmos.polls && Minted(s, id) ::
      ghost var k: nat :| Backs(b.lib, s.eth.log, id, s.cosmos.polls[id].status.finalClaim, k); k;
  }

  lemma BackedAward(b: Bridge, log: seq<Escrow.LogEvent>, id: string, poll: Poll, k: nat)
    requires b.env.codec == b.lib.codec && poll.status.text == Success
    requires Backs(b.lib, log, id, poll.status.finalClaim, k)
    ensures PaidClaim(b.env, poll) == Some(EventClaim(b.lib, log[k]))
    ensures 0 <= AwardTotal(b.env, poll) <= log[k].value
  {
    ClaimRoundTrip(b.lib.codec, EventClaim(b.lib, log[k]));
    AmountIsEther(b.lib, log[k].value);
  }

  /** A backed prophecy pays only the recipient of its lock event, only in "ethereum", and at most the event's value. */
  lemma BackedAwardFor(
    b: Bridge, log: seq<Escrow.LogEvent>, id: string, poll: Poll, k: nat, key: (Bytes, string))
    requires b.env.codec == b.lib.codec && poll.status.text == Success
    requires Backs(b.lib, log, id, poll.status.finalClaim, k)
    ensures 0 <= Award(b.env, poll, key)
    ensures Award(b.env, poll, key) <=
              if key.0 == Recipient(b.lib, log[k].to) && key.1 == "ethereum" then log[k].value else 0
  {
    BackedAward(b, log, id, poll, k);
    AmountIsEther(b.lib, log[k].value);
  }

  lemma AwardsBounded(b: Bridge, s: System, backing: map<string, nat>)
    requires b.env.codec == b.lib.codec && IsBacking(b, s, backing)
    ensures MapSum(AwardTotals(b.env, s.cosmos.polls)) <= LockedValue(s.eth.log)
  {
    var polls := s.cosmos.polls;
    var paid := map id | id in polls && Minted(s, id) :: AwardTotal(b.env, polls[id]);
    forall id | id in paid
      ensures id in backing && backing[id] in LockValues(s.eth.log)
      ensures 0 <= paid[id] <= LockValues(s.eth.log)[backing[id]]
    {
      BackedAward(b, s.eth.log, id, polls[id], backing[id]);
    }
    SumLeq(AwardTotals(b.env, polls), paid);
    SumInjection(paid, LockValues(s.eth.log), backing);
  }

  /**
   The end-to-end bound. While faulty validators hold less than the threshold in every staking snapshot, on every
   run each minted prophecy belongs to its own emitted lock event, pays exactly that event's recipient its value in
   the coin "ethereum", and all minting together stays within the sum of the lock events' values.
   */
  lemma EndToEndBound(b: Bridge, states: seq<System>, actions: seq<Action>, n: nat) returns (backing: map<string, nat>)
    requires b.env.threshold.Valid() && SystemTrace(b, states, actions) && n < |states|
    ensures IsBacking(b, states[n], backing)
    ensures forall id, other ::
              Minted(states[n], id) && Minted(states[n], other) && backing[id] == backing[other] ==> id == other
    ensures forall id :: Minted(states[n], id) ==>
              PaidClaim(b.env, states[n].cosmos.polls[id]) == Some(EventClaim(b.lib, states[n].eth.log[backing[id]]))
    ensures MapSum(states[n].cosmos.bank) - MapSum(states[0].cosmos.bank) <= LockedValue(states[n].eth.log)
  {
    var s := states[n];
    EverythingBacked(b, states, actions, n);
    backing := BackingExists(b, s);
    forall id | Minted(s, id)
      ensures PaidClaim(b.env, s.cosmos.polls[id]) == Some(EventClaim(b.lib, s.eth.log[backing[id]]))
    {
      BackedAward(b, s.eth.log, id, s.cosmos.polls[id], backing[id]);
    }
    AwardsBounded(b, s, backing);
    var chains, events := CosmosRun(b, states, actions, n);
    MintConservation(b.env, chains, events, |chains| - 1, ([], ""));
  }

  /** The values of the lock events for one recipient. */
  function LockValuesFor(lib: Library, log: seq<Escrow.LogEvent>, a: Bytes): map<nat, int> {
    map k: nat | k < |log| && log[k].LogLock? && Recipient(lib, log[k].to) == a :: log[k].value
  }

  lemma AwardsFor(b: Bridge, s: System, backing: map<string, nat>, key: (Bytes, string))
    requires b.env.codec == b.lib.codec && IsBacking(b, s, backing)
    ensures 0 <= MapSum(Awards(b.env, s.cosmos.polls, key)) <= MapSum(LockValuesFor(b.lib, s.eth.log, key.0))
    ensures key.1 != "ethereum" ==> MapSum(Awards(b.env, s.cosmos.polls, key)) == 0
  {
    var awards := Awards(b.env, s.cosmos.polls, key);
    forall id | id in awards ensures 0 <= awards[id] && (key.1 != "ethereum" ==> awards[id] == 0) {
      if Minted(s, id) {
        BackedAwardFor(b, s.eth.log, id, s.cosmos.polls[id], backing[id], key);
      }
    }
    SumNonNegative(awards);
    if key.1 != "ethereum" {
      ZeroSum(awards);
    }
    AwardsWithinLocks(b, s, backing, key);
  }

  lemma AwardsWithinLocks(b: Bridge, s: System, backing: map<string, nat>, key: (Bytes, string))
    requires b.env.codec == b.lib.codec && IsBacking(b, s, backing)
    ensures MapSum(Awards(b.env, s.cosmos.polls, key)) <= MapSum(LockValuesFor(b.lib, s.eth.log, key.0))
  {
    var polls, locks := s.cosmos.polls, LockValuesFor(b.lib, s.eth.log, key.0);
    var paid := map id | id in polls && Minted(s, id) && Award(b.env, polls[id], key) != 0 ::
      Award(b.env, polls[id], key);
    forall id | id in paid
      ensures id in backing && backing[id] in locks && 0 <= paid[id] <= locks[backing[id]]
    {
      BackedAwardFor(b, s.eth.log, id, polls[id], backing[id], key);
    }
    forall id, other | id in paid && other in paid && backing[id] == backing[other] ensures id == other {
    }
    SumLeq(Awards(b.env, polls, key), paid);
    SumInjection(paid, locks, backing);
  }

  /**
   The bound for each account: on every run an account gains at most the values of the emitted locks that name it, in
   the coin "ethereum", and in every other denomination its balance does not change at all.
   */
  lemma RecipientBound(b: Bridge, states: seq<System>, actions: seq<Action>, n: nat, a: Bytes, denom: string)
    requires b.env.threshold.Valid() && SystemTrace(b, states, actions) && n < |states|
    ensures
      var gain := Lookup(states[n].cosmos.bank, (a, denom)) - Lookup(states[0].cosmos.bank, (a, denom));
      && 0 <= gain <= MapSum(LockValuesFor(b.lib, states[n].eth.log, a))
      && (denom != "ethereum" ==> gain == 0)
  {
    EverythingBacked(b, states, actions, n);
    var backing := BackingExists(b, states[n]);
    AwardsFor(b, states[n], backing, (a, denom));
    var chains, events := CosmosRun(b, states, actions, n);
    MintConservation(b.env, chains, events, |chains| - 1, (a, denom));
  }

  // ---------------------------------------------------------------- the Ethereum side of a run

  lemma {:induction false} EthereumRun(b: Bridge, states: seq<System>, actions: seq<Action>, n: nat)
      returns (txs: seq<Escrow.Tx>)
    requires SystemTrace(b, states, actions) && n < |states|
    ensures states[n].eth == Escrow.Run(states[0].eth, txs)
  {
    if n == 0 {
      txs := [];
    } else {
      txs := EthereumRun(b, states, actions, n - 1);
      assert SystemStep(b, states[n - 1], actions[n - 1], states[n]);
      if actions[n - 1].OnEthereum? {
        var more := txs + [actions[n - 1].tx];
        assert more[..|more| - 1] == txs;
        txs := more;
      }
    }
  }

  lemma SystemStepExtendsLog(b: Bridge, s: System, a: Action, s': System)
    requires SystemStep(b, s, a, s')
    ensures s.eth.log <= s'.eth.log
  {
    if a.OnEthereum? {
      EscrowRuns.StepExtendsLog(s.eth, a.tx);
    }
  }

  lemma {:induction false} LogPrefix(b: Bridge, states: seq<System>, actions: seq<Action>, i: nat, n: nat)
    requires SystemTrace(b, states, actions) && i <= n < |states|
    ensures states[i].eth.log <= states[n].eth.log
  {
    if i < n {
      LogPrefix(b, states, actions, i, n - 1);
      SystemStepExtendsLog(b, states[n - 1], actions[n - 1], states[n]);
      PrefixTransitive(states[i].eth.log, states[n - 1].eth.log, states[n].eth.log);
    }
  }

  lemma PrefixTransitive<T>(a: seq<T>, b: seq<T>, c: seq<T>)
    requires a <= b <= c
    ensures a <= c
  {
  }

  lemma SystemTraceExtends(b: Bridge, states: seq<System>, actions: seq<Action>, a: Action, s: System)
    requires SystemTrace(b, states, actions) && SystemStep(b, Last(states), a, s)
    ensures SystemTrace(b, states + [s], actions + [a])
  {
    var states', actions' := states + [s], actions + [a];
    forall i | 0 <= i < |actions'| ensures SystemStep(b, states'[i], actions'[i], states'[i + 1]) {
      if i < |actions| {
        assert SystemStep(b, states[i], actions[i], states[i + 1]);
      }
    }
  }
}
