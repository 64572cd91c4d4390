/**
 Two runs after which coins are minted and Peggy holds no ether: a lock withdrawn after its mint, and a lock of
 tokens.
 */
module PegWitness {
  import opened Wrappers
  import opened Addresses
  import opened Sums
  import opened Consensus
  import opened BridgeClaims
  import opened BridgeMachine
  import opened BridgeRuns
  import opened Relayer
  import opened EndToEnd
  import ItemKeys
  import Voting
  import Erc20
  import Escrow
  import EscrowRuns

  const PEGGY: EthAddress := [1, 1, 1, 1, 1, 1, 1, 1, 1, 1, 1, 1, 1, 1, 1, 1, 1, 1, 1, 1]
  const USER: EthAddress := [2, 2, 2, 2, 2, 2, 2, 2, 2, 2, 2, 2, 2, 2, 2, 2, 2, 2, 2, 2]
  const TOKEN: EthAddress := [3, 3, 3, 3, 3, 3, 3, 3, 3, 3, 3, 3, 3, 3, 3, 3, 3, 3, 3, 3]
  const RECIPIENT: Bytes := [65]
  const VALIDATOR: Bytes := [7]

  /** One honest validator, a threshold of two thirds, and a bank that takes every deposit. */
  ghost function OneValidator(): Bridge {
    var codec := LatinCodec();
    Bridge(Env(codec, Threshold(2, 3), (bank, a, coins) => true), Library(codec, (a, i) => false, n => true), {})
  }

  const ONE_BONDED := Snapshot(map[VALIDATOR := 1], 1)
  const EMPTY_CHAIN := Chain(map[], map[], ONE_BONDED)

  /** A world with these funds in which Peggy was just deployed. */
  function NewWorld(ether: Escrow.Ether, tokens: map<EthAddress, Erc20.Token>): Escrow.World {
    Escrow.World(PEGGY, USER, true, 0, map[], [Escrow.LogLockingActivated], ether, tokens)
  }

  // ---------------------------------------------------------------- the mint

  lemma OneVote(c: string)
    ensures
      var votes: Votes := map[VALIDATOR := c];
      Decides(Threshold(2, 3), ONE_BONDED, votes, NEW_STATUS, Status(Success, c))
  {
    var votes: Votes := map[VALIDATOR := c];
    Voting.EmptyTally(ONE_BONDED, c);
    SupportAdd(ONE_BONDED, map[], VALIDATOR, c, c);
    assert votes == map[][VALIDATOR := c];
    assert votes[VALIDATOR] in votes.Values;
    assert IsTop(ONE_BONDED, votes, c);
  }

  /** What the validator's first acceptable message does to a chain without any claims. */
  lemma FirstVoteRecorded(msg: EthBridgeClaim, c: string)
    requires Rejection(msg) == None && MsgBallot(OneValidator().env, msg) == Voting.Ballot(VALIDATOR, c)
    ensures
      var env, status := OneValidator().env, Status(Success, c);
      var polls := map[MsgId(msg) := Poll(map[VALIDATOR := c], status)];
      Records(env, EMPTY_CHAIN, msg, status, Chain(polls, Paid(env, map[], status), ONE_BONDED))
  {
    OneVote(c);
    assert NEW_POLL.votes[VALIDATOR := c] == map[VALIDATOR := c];
  }

  /** What the bank holds after the payment of one claim. */
  lemma FirstPayment(claim: OracleClaim)
    requires claim.cosmosReceiver != []
    ensures
      var env, c := OneValidator().env, ClaimText(OneValidator().env.codec, claim);
      && Readable(env, c) && !Refuses(env, map[], c)
      && MapSum(Paid(env, map[], Status(Success, c))) == CoinTotal(claim.amount)
  {
    var none: Bank := map[];
    ClaimRoundTrip(OneValidator().env.codec, claim);
    assert MapSum(none) == 0;
    AddCoinsEffect(none, claim.cosmosReceiver, claim.amount, ([], ""));
  }

  /** The validator relays lock k, and its value is minted. */
  lemma RelayMints(s: System, k: nat) returns (s': System)
    requires s.cosmos == EMPTY_CHAIN && k < |s.eth.log| && s.eth.log[k].LogLock? && s.eth.log[k].to == RECIPIENT
    ensures SystemStep(OneValidator(), s, OnCosmos(Deliver(Payload(OneValidator().lib, VALIDATOR, s.eth.log[k]))), s')
    ensures s'.eth == s.eth && MapSum(s'.cosmos.bank) == s.eth.log[k].value
  {
    var b, e := OneValidator(), s.eth.log[k];
    var msg, claim := Payload(b.lib, VALIDATOR, e), EventClaim(b.lib, e);
    var c := ClaimText(b.env.codec, claim);
    var status := Status(Success, c);
    RecipientReads(b.lib);
    HexIsValid(b.lib, e.from);
    PayloadWitnesses(b.lib, VALIDATOR, e);
    FirstPayment(claim);
    FirstVoteRecorded(msg, c);
    var chain := Chain(map[MsgId(msg) := Poll(map[VALIDATOR := c], status)], Paid(b.env, map[], status), ONE_BONDED);
    RecordIsStep(b.env, EMPTY_CHAIN, msg, status, chain);
    assert Relays(b, s.eth.log, msg, k);
    NobodyFaulty();
    s' := System(s.eth, chain);
  }

  lemma RecipientReads(lib: Library)
    requires lib.codec == LatinCodec()
    ensures Recipient(lib, RECIPIENT) == RECIPIENT
  {
    assert BytesText(RECIPIENT) == lib.codec.accText(RECIPIENT);
  }

  lemma NobodyFaulty()
    ensures FaultyMinority(OneValidator(), ONE_BONDED)
  {
    assert (map v | v in OneValidator().faulty :: ONE_BONDED.Power(v)) == map[];
  }

  // ---------------------------------------------------------------- the lock and its mint

  ghost predicate LocksNow(w: Escrow.World, msgValue: Erc20.uint256, token: EthAddress, value: Erc20.uint256) {
    Escrow.Start(w) && w.self != USER && Escrow.ExecLock(w, USER, msgValue, RECIPIENT, token, value).Some?
  }

  /** A lock in a new world and its relay: afterwards the value is minted and item and event are there. */
  lemma LockAndMint(w: Escrow.World, msgValue: Erc20.uint256, token: EthAddress, value: Erc20.uint256)
      returns (states: seq<System>, actions: seq<Action>)
    requires LocksNow(w, msgValue, token, value)
    ensures SystemTrace(OneValidator(), states, actions) && |actions| == 2
    ensures states[0] == System(w, EMPTY_CHAIN)
    ensures actions[0] == OnEthereum(Escrow.Tx(USER, Escrow.Lock(msgValue, RECIPIENT, token, value)))
    ensures states[2].eth == Escrow.ExecLock(w, USER, msgValue, RECIPIENT, token, value).value
    ensures MapSum(states[2].cosmos.bank) == value
  {
    var tx := Escrow.Tx(USER, Escrow.Lock(msgValue, RECIPIENT, token, value));
    var locked := Escrow.ExecLock(w, USER, msgValue, RECIPIENT, token, value).value;
    EscrowRuns.StartInv(w);
    Escrow.LockEffect(w, USER, msgValue, RECIPIENT, token, value, token);
    assert Escrow.CanSend(w, tx) && Escrow.Step(w, tx) == locked;
    var s0, s1 := System(w, EMPTY_CHAIN), System(locked, EMPTY_CHAIN);
    SystemTraceExtends(OneValidator(), [s0], [], OnEthereum(tx), s1);
    var s2 := RelayMints(s1, |w.log|);
    var relay := OnCosmos(Deliver(Payload(OneValidator().lib, VALIDATOR, locked.log[|w.log|])));
    SystemTraceExtends(OneValidator(), [s0] + [s1], [] + [OnEthereum(tx)], relay, s2);
    states, actions := [s0] + [s1] + [s2], [] + [OnEthereum(tx)] + [relay];
  }

  // ---------------------------------------------------------------- the two runs

  /** Ether locked, minted for, and withdrawn by its sender: the coins stay and Peggy is empty. */
  lemma WithdrawnLockStaysMinted(value: Erc20.uint256) returns (states: seq<System>, actions: seq<Action>)
    requires value != 0
    ensures SystemTrace(OneValidator(), states, actions) && Escrow.Start(states[0].eth) && |actions| == 3
    ensures actions[0] == OnEthereum(Escrow.Tx(USER, Escrow.Lock(value, RECIPIENT, ZERO_ADDRESS, value)))
    ensures actions[2].OnEthereum? && actions[2].tx.sender == USER && actions[2].tx.call.Withdraw?
    ensures states[0].cosmos == EMPTY_CHAIN && MapSum(states[3].cosmos.bank) == value
    ensures Escrow.Balance(states[3].eth, ZERO_ADDRESS) == 0
  {
    var w := NewWorld(map[USER := value], map[]);
    EscrowRuns.LockSucceedsExactly(w, [], USER, value, RECIPIENT, ZERO_ADDRESS, value);
    states, actions := LockAndMint(w, value, ZERO_ADDRESS, value);
    EscrowRuns.StartInv(w);
    Escrow.LockEffect(w, USER, value, RECIPIENT, ZERO_ADDRESS, value, ZERO_ADDRESS);
    var id := states[2].eth.log[1].id;
    var withdrawn := WithdrawAll(states[2].eth, id, value);
    var action := OnEthereum(Escrow.Tx(USER, Escrow.Withdraw(id)));
    var last := System(withdrawn, states[2].cosmos);
    SystemTraceExtends(OneValidator(), states, actions, action, last);
    states, actions := states + [last], actions + [action];
  }

  lemma WithdrawAll(locked: Escrow.World, id: ItemKeys.Hash, value: Erc20.uint256)
      returns (withdrawn: Escrow.World)
    requires Escrow.Inv(locked) && id in locked.items && locked.items[id].locked
    requires locked.items[id].sender == USER && locked.items[id].token == ZERO_ADDRESS
    requires locked.items[id].amount == value == Escrow.Balance(locked, ZERO_ADDRESS)
    ensures withdrawn == Escrow.Step(locked, Escrow.Tx(USER, Escrow.Withdraw(id)))
    ensures Escrow.Balance(withdrawn, ZERO_ADDRESS) == 0
  {
    EscrowRuns.CompleteEnabled(locked, id);
    EscrowRuns.WithdrawStep(locked, id);
    Escrow.CompleteEffect(locked, id, ZERO_ADDRESS);
    withdrawn := Escrow.Step(locked, Escrow.Tx(USER, Escrow.Withdraw(id)));
  }

  /** Tokens locked and minted for: the coins are called "ethereum" and Peggy never held any ether. */
  lemma TokenLockMintsEther(value: Erc20.uint256) returns (states: seq<System>, actions: seq<Action>)
    ensures SystemTrace(OneValidator(), states, actions) && Escrow.Start(states[0].eth) && |actions| == 2
    ensures actions[0] == OnEthereum(Escrow.Tx(USER, Escrow.Lock(0, RECIPIENT, TOKEN, value)))
    ensures states[0].cosmos == EMPTY_CHAIN && MapSum(states[2].cosmos.bank) == value
    ensures Escrow.Balance(states[2].eth, ZERO_ADDRESS) == 0
  {
    var token := Erc20.Token(map[USER := value], map[(USER, PEGGY) := value], value);
    var w := NewWorld(map[], map[TOKEN := token]);
    TokenIsSound(value);
    EscrowRuns.LockSucceedsExactly(w, [], USER, 0, RECIPIENT, TOKEN, value);
    states, actions := LockAndMint(w, 0, TOKEN, value);
    EscrowRuns.StartInv(w);
    Escrow.LockEffect(w, USER, 0, RECIPIENT, TOKEN, value, ZERO_ADDRESS);
  }

  lemma TokenIsSound(value: Erc20.uint256)
    ensures
      var token := Erc20.Token(map[USER := value], map[(USER, PEGGY) := value], value);
      Erc20.Balanced(token) && Erc20.AllowsNothing(token, PEGGY)
  {
    var none: map<EthAddress, int> := map[];
    var one: map<EthAddress, int> := map[USER := value];
    SumUpdate(none, USER, value);
    assert none[USER := value] == one;
    assert USER[0] != PEGGY[0];
  }
}
