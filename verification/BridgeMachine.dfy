/**
 The Cosmos side as a state machine on values: what one call of ProcessClaim and of the bridge handler
 does to the stored polls and the bank, and what a run of messages and stake changes is. The classes in
 OracleKeeper.dfy and BridgeHandler.dfy are proved against these specifications.
 */
module BridgeMachine {
  import opened Wrappers
  import opened Addresses
  import opened Sums
  import opened Consensus
  import opened Voting
  import opened BridgeClaims

  // ---------------------------------------------------------------- the oracle

  datatype OracleError =
    | ProphecyNotFound
    | MinimumConsensusNeededInvalid
    | NoClaims
    | InvalidIdentifier
    | ProphecyFinalized
    | DuplicateMessage
    | InvalidClaim
    | InvalidValidator
    | InternalDB

  type Polls = map<string, Poll>

  function PollOf(polls: Polls, id: string): Poll {
    if id in polls then polls[id] else NEW_POLL
  }

  /** Why a prophecy is not open to a validator. */
  function Closed(polls: Polls, id: string, voter: Bytes): Option<OracleError> {
    if id == "" then Some(InvalidIdentifier)
    else if PollOf(polls, id).status.text != Pending then Some(ProphecyFinalized)
    else if voter in PollOf(polls, id).votes then Some(DuplicateMessage)
    else None
  }

  /** Why ProcessClaim refuses a ballot, in the order in which it checks. */
  function Refusal(snap: Snapshot, polls: Polls, id: string, b: Ballot): Option<OracleError> {
    if b.voter !in snap.bonded then Some(InvalidValidator)
    else if b.claim == "" then Some(InvalidClaim)
    else Closed(polls, id, b.voter)
  }

  /** One call of ProcessClaim. */
  ghost predicate Processes(
    th: Threshold, snap: Snapshot, polls: Polls, id: string, b: Ballot, r: Result<Status, OracleError>, polls': Polls)
  {
    match Refusal(snap, polls, id, b)
    case Some(e) => r == Err(e) && polls' == polls
    case None =>
      var votes := PollOf(polls, id).votes[b.voter := b.claim];
      && r.Ok?
      && Decides(th, snap, votes, PollOf(polls, id).status, r.value)
      && polls' == polls[id := Poll(votes, r.value)]
  }

  /** Seen from one prophecy, a call for its id submits a ballot and any other call does nothing. */
  lemma ProcessesSubmits(
    th: Threshold, snap: Snapshot, polls: Polls, id: string, b: Ballot, r: Result<Status, OracleError>, polls': Polls)
    requires id != "" && Processes(th, snap, polls, id, b, r, polls')
    ensures Submits(th, snap, PollOf(polls, id), b, PollOf(polls', id))
    ensures forall other :: other != id ==> PollOf(polls', other) == PollOf(polls, other)
  {
  }

  // ---------------------------------------------------------------- the handler

  type Bank = map<(Bytes, string), int>

  /** `accepts` is the bank keeper's own decision whether a deposit is possible. */
  datatype Env = Env(codec: AddressCodec, threshold: Threshold, accepts: (Bank, Bytes, seq<Coin>) -> bool)

  datatype Chain = Chain(polls: Polls, bank: Bank, staking: Snapshot)

  datatype BridgeError =
    | InvalidAddress
    | InvalidEthNonce
    | InvalidEthAddress
    | OracleRefused(error: OracleError)
    | ClaimUnreadable
    | BankRefused

  function AddCoins(bank: Bank, a: Bytes, coins: seq<Coin>): Bank
    decreases |coins|
  {
    if coins == [] then bank
    else
      var key := (a, coins[0].denom);
      AddCoins(bank[key := Lookup(bank, key) + coins[0].amount], a, coins[1..])
  }

  function Rejection(msg: EthBridgeClaim): Option<BridgeError> {
    if msg.cosmosReceiver == [] then Some(InvalidAddress)
    else if msg.nonce < 0 then Some(InvalidEthNonce)
    else if !IsValidEthAddress(msg.ethereumSender) then Some(InvalidEthAddress)
    else None
  }

  function MsgId(msg: EthBridgeClaim): string {
    OracleId(msg.nonce, msg.ethereumSender)
  }

  function MsgBallot(env: Env, msg: EthBridgeClaim): Ballot {
    Ballot(msg.validator, ClaimText(env.codec, OracleClaim(msg.cosmosReceiver, msg.amount)))
  }

  /** What the handler makes of the oracle's answer; an error discards the oracle's write. */
  ghost predicate Finishes(
    env: Env, s: Chain, answer: Result<Status, OracleError>, polls: Polls, r: Result<StatusText, BridgeError>,
    s': Chain)
  {
    match answer
    case Err(e) => r == Err(OracleRefused(e)) && s' == s
    case Ok(status) =>
      if status.text != Success then r == Ok(status.text) && s' == s.(polls := polls)
      else match CreateOracleClaimFromOracleString(env.codec, status.finalClaim)
        case None => r == Err(ClaimUnreadable) && s' == s
        case Some(claim) =>
          if env.accepts(s.bank, claim.cosmosReceiver, claim.amount) then
            r == Ok(Success) && s' == Chain(polls, AddCoins(s.bank, claim.cosmosReceiver, claim.amount), s.staking)
          else r == Err(BankRefused) && s' == s
  }

  /** One delivered message, with the SDK's rule that a failed message leaves no writes. */
  ghost predicate Handles(env: Env, s: Chain, msg: EthBridgeClaim, r: Result<StatusText, BridgeError>, s': Chain) {
    match Rejection(msg)
    case Some(e) => r == Err(e) && s' == s
    case None =>
      exists answer, polls ::
        Processes(env.threshold, s.staking, s.polls, MsgId(msg), MsgBallot(env, msg), answer, polls) &&
        Finishes(env, s, answer, polls, r, s')
  }

  // ---------------------------------------------------------------- runs

  datatype Event = Deliver(msg: EthBridgeClaim) | StakeChange(staking: Snapshot)

  ghost predicate Step(env: Env, s: Chain, e: Event, s': Chain) {
    match e
    case Deliver(msg) => exists r :: Handles(env, s, msg, r, s')
    case StakeChange(staking) => s' == s.(staking := staking)
  }

  predicate Readable(env: Env, text: string) {
    CreateOracleClaimFromOracleString(env.codec, text).Some?
  }

  /** The bank refuses to deposit what this claim text says. */
  predicate Refuses(env: Env, bank: Bank, text: string) {
    match CreateOracleClaimFromOracleString(env.codec, text)
    case None => false
    case Some(claim) => !env.accepts(bank, claim.cosmosReceiver, claim.amount)
  }

  // ---------------------------------------------------------------- what the answers mean

  /** Which answer ProcessClaim gives, for every call: the first of its checks that fails, or the stored status. */
  lemma ProcessAnswers(
    th: Threshold, snap: Snapshot, polls: Polls, id: string, b: Ballot, r: Result<Status, OracleError>, polls': Polls)
    requires Processes(th, snap, polls, id, b, r, polls')
    ensures
      var poll := PollOf(polls, id);
      var bonded, open := b.voter in snap.bonded, poll.status.text == Pending;
      && (r == Err(InvalidValidator) <==> !bonded)
      && (r == Err(InvalidClaim) <==> bonded && b.claim == "")
      && (r == Err(InvalidIdentifier) <==> bonded && b.claim != "" && id == "")
      && (r == Err(ProphecyFinalized) <==> bonded && b.claim != "" && id != "" && !open)
      && (r == Err(DuplicateMessage) <==> bonded && b.claim != "" && id != "" && open && b.voter in poll.votes)
      && (r.Ok? <==> bonded && b.claim != "" && id != "" && open && b.voter !in poll.votes)
      && (r.Err? ==> polls' == polls)
      && (r.Ok? ==> polls' == polls[id := Poll(poll.votes[b.voter := b.claim], r.value)])
  {
  }

  /** The message is well formed: a receiver, a nonce that is not negative, and an Ethereum address. */
  predicate WellFormed(msg: EthBridgeClaim) {
    msg.cosmosReceiver != [] && 0 <= msg.nonce && IsValidEthAddress(msg.ethereumSender)
  }

  /** On success the answer is the text of the status now stored, and exactly this message's vote was added to it. */
  lemma AcceptedAnswer(env: Env, s: Chain, msg: EthBridgeClaim, r: Result<StatusText, BridgeError>, s': Chain)
    requires Handles(env, s, msg, r, s') && r.Ok?
    ensures
      var id, text := MsgId(msg), ClaimText(env.codec, OracleClaim(msg.cosmosReceiver, msg.amount));
      && WellFormed(msg) && msg.validator in s.staking.bonded
      && PollOf(s.polls, id).status.text == Pending && msg.validator !in PollOf(s.polls, id).votes
      && id in s'.polls && s'.polls[id].status.text == r.value
      && s'.polls[id].votes == PollOf(s.polls, id).votes[msg.validator := text]
      && s'.polls == s.polls[id := s'.polls[id]] && s'.staking == s.staking
      && (r.value != Success ==> s'.bank == s.bank)
  {
    var answer, polls :|
      Processes(env.threshold, s.staking, s.polls, MsgId(msg), MsgBallot(env, msg), answer, polls) &&
      Finishes(env, s, answer, polls, r, s');
    ProcessAnswers(env.threshold, s.staking, s.polls, MsgId(msg), MsgBallot(env, msg), answer, polls);
  }

  /** A refused message changes nothing, and the reason says what was wrong with it. */
  lemma RefusedAnswer(env: Env, s: Chain, msg: EthBridgeClaim, r: Result<StatusText, BridgeError>, s': Chain)
    requires Handles(env, s, msg, r, s')
    ensures r.Err? ==> s' == s
    ensures r == Err(InvalidAddress) <==> msg.cosmosReceiver == []
    ensures r == Err(InvalidEthNonce) <==> msg.cosmosReceiver != [] && msg.nonce < 0
    ensures r == Err(InvalidEthAddress) <==>
              msg.cosmosReceiver != [] && 0 <= msg.nonce && !IsValidEthAddress(msg.ethereumSender)
    ensures
      var poll, bonded := PollOf(s.polls, MsgId(msg)), msg.validator in s.staking.bonded;
      var open := poll.status.text == Pending;
      && (r == Err(OracleRefused(InvalidValidator)) <==> WellFormed(msg) && !bonded)
      && (r == Err(OracleRefused(ProphecyFinalized)) <==> WellFormed(msg) && bonded && !open)
      && (r == Err(OracleRefused(DuplicateMessage)) <==>
            WellFormed(msg) && bonded && open && msg.validator in poll.votes)
      && (r.Ok? || r == Err(ClaimUnreadable) || r == Err(BankRefused) <==>
            WellFormed(msg) && bonded && open && msg.validator !in poll.votes)
  {
    if WellFormed(msg) {
      var answer, polls :|
        Processes(env.threshold, s.staking, s.polls, MsgId(msg), MsgBallot(env, msg), answer, polls) &&
        Finishes(env, s, answer, polls, r, s');
      ProcessAnswers(env.threshold, s.staking, s.polls, MsgId(msg), MsgBallot(env, msg), answer, polls);
    }
  }

  /**
   A message that would decide its prophecy is refused only for a claim that cannot be read or a deposit not taken.
   */
  lemma PayoutAnswer(env: Env, s: Chain, msg: EthBridgeClaim, r: Result<StatusText, BridgeError>, s': Chain)
      returns (status: Status)
    requires Handles(env, s, msg, r, s')
    requires r == Ok(Success) || r == Err(ClaimUnreadable) || r == Err(BankRefused)
    ensures status.text == Success
    ensures
      var poll := PollOf(s.polls, MsgId(msg));
      Decides(env.threshold, s.staking, poll.votes[msg.validator := MsgBallot(env, msg).claim], poll.status, status)
    ensures
      match CreateOracleClaimFromOracleString(env.codec, status.finalClaim)
      case None => r == Err(ClaimUnreadable)
      case Some(claim) =>
        if env.accepts(s.bank, claim.cosmosReceiver, claim.amount)
        then r == Ok(Success) && s'.bank == AddCoins(s.bank, claim.cosmosReceiver, claim.amount)
        else r == Err(BankRefused)
  {
    var answer, polls :|
      Processes(env.threshold, s.staking, s.polls, MsgId(msg), MsgBallot(env, msg), answer, polls) &&
      Finishes(env, s, answer, polls, r, s');
    status := answer.value;
  }

  /** The coins a successful message adds: the decoded final claim, and nothing for any other status. */
  function Paid(env: Env, bank: Bank, status: Status): Bank {
    if status.text != Success then bank
    else match CreateOracleClaimFromOracleString(env.codec, status.finalClaim)
      case None => bank
      case Some(claim) => AddCoins(bank, claim.cosmosReceiver, claim.amount)
  }

  /** The message was accepted: its vote is recorded, and coins are added on the turn to success. */
  ghost predicate Records(env: Env, s: Chain, msg: EthBridgeClaim, status: Status, s': Chain) {
    var id, b := MsgId(msg), MsgBallot(env, msg);
    var votes := PollOf(s.polls, id).votes[b.voter := b.claim];
    && Rejection(msg) == None
    && Refusal(s.staking, s.polls, id, b) == None
    && Decides(env.threshold, s.staking, votes, PollOf(s.polls, id).status, status)
    && s' == Chain(s.polls[id := Poll(votes, status)], Paid(env, s.bank, status), s.staking)
  }

  /** A delivered message either is recorded or changes nothing. */
  lemma DeliverCases(env: Env, s: Chain, msg: EthBridgeClaim, s': Chain)
    requires Step(env, s, Deliver(msg), s')
    ensures s' == s || exists status :: Records(env, s, msg, status, s')
  {
    var r :| Handles(env, s, msg, r, s');
    if s' != s {
      var answer, polls :|
        Processes(env.threshold, s.staking, s.polls, MsgId(msg), MsgBallot(env, msg), answer, polls) &&
        Finishes(env, s, answer, polls, r, s');
      assert Records(env, s, msg, answer.value, s');
    }
  }

  /** Conversely, a recorded message is a step, provided a decided claim can be read and the bank takes it. */
  lemma RecordIsStep(env: Env, s: Chain, msg: EthBridgeClaim, status: Status, s': Chain)
    requires Records(env, s, msg, status, s')
    requires status.text == Success ==> Readable(env, status.finalClaim) && !Refuses(env, s.bank, status.finalClaim)
    ensures Step(env, s, Deliver(msg), s')
  {
    var id, b := MsgId(msg), MsgBallot(env, msg);
    assert Processes(env.threshold, s.staking, s.polls, id, b, Ok(status), s'.polls);
    assert Finishes(env, s, Ok(status), s'.polls, Ok(status.text), s');
    assert Handles(env, s, msg, Ok(status.text), s');
  }

  ghost predicate Trace(env: Env, states: seq<Chain>, events: seq<Event>) {
    && |states| == |events| + 1
    && states[0].polls == map[]
    && forall i {:trigger events[i]} :: 0 <= i < |events| ==> Step(env, states[i], events[i], states[i + 1])
  }
}
