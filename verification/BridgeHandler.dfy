/** x/ethbridge/handler.go: the message handler over the oracle keeper and the bank. */
module BridgeHandler {
  import opened Wrappers
  import opened Addresses
  import opened Sums
  import opened Consensus
  import opened BridgeClaims
  import opened BridgeMachine
  import opened OracleKeeper

  class BankKeeper {
    const accepts: (Bank, Bytes, seq<Coin>) -> bool
    var coins: Bank

    constructor (accepts: (Bank, Bytes, seq<Coin>) -> bool, coins: Bank)
      ensures this.accepts == accepts && this.coins == coins
    {
      this.accepts, this.coins := accepts, coins;
    }

    /** Deposit a coin list, one coin after the other, unless the bank refuses it. */
    method Deposit(a: Bytes, amount: seq<Coin>) returns (ok: bool)
      modifies this`coins
      ensures ok == accepts(old(coins), a, amount)
      ensures coins == if ok then BridgeMachine.AddCoins(old(coins), a, amount) else old(coins)
    {
      if !accepts(coins, a, amount) {
        return false;
      }
      var left := amount;
      while left != []
        invariant BridgeMachine.AddCoins(coins, a, left) == BridgeMachine.AddCoins(old(coins), a, amount)
        decreases |left|
      {
        var key := (a, left[0].denom);
        coins := coins[key := Lookup(coins, key) + left[0].amount];
        left := left[1..];
      }
      return true;
    }
  }

  class Handler {
    const oracle: Keeper
    const bank: BankKeeper

    constructor (oracle: Keeper, bank: BankKeeper)
      ensures this.oracle == oracle && this.bank == bank
    {
      this.oracle, this.bank := oracle, bank;
    }

    ghost predicate Valid()
      reads this, oracle
    {
      oracle.Valid()
    }

    ghost function Env(): Env {
      BridgeMachine.Env.Env(oracle.codec, oracle.threshold, bank.accepts)
    }

    ghost function View(): Chain
      reads oracle, bank
    {
      Chain(oracle.polls, bank.coins, oracle.staking)
    }

    method ProcessSuccessfulClaim(claim: string) returns (err: Option<BridgeError>)
      modifies bank`coins
      ensures match CreateOracleClaimFromOracleString(oracle.codec, claim)
              case None => err == Some(ClaimUnreadable) && bank.coins == old(bank.coins)
              case Some(c) =>
                if bank.accepts(old(bank.coins), c.cosmosReceiver, c.amount) then
                  err == None && bank.coins == BridgeMachine.AddCoins(old(bank.coins), c.cosmosReceiver, c.amount)
                else err == Some(BankRefused) && bank.coins == old(bank.coins)
    {
      match CreateOracleClaimFromOracleString(oracle.codec, claim) {
        case None =>
          return Some(ClaimUnreadable);
        case Some(oracleClaim) =>
          var ok := bank.Deposit(oracleClaim.cosmosReceiver, oracleClaim.amount);
          return if ok then None else Some(BankRefused);
      }
    }

    /** The handler proper: on an error its oracle writes may remain, for the caller to discard. */
    method HandleMsgMakeEthBridgeClaim(msg: EthBridgeClaim) returns (r: Result<StatusText, BridgeError>)
      requires Valid()
      modifies oracle`store, oracle`polls, bank`coins
      ensures Valid()
      ensures Handles(Env(), old(View()), msg, r, if r.Ok? then View() else old(View()))
    {
      if msg.cosmosReceiver == [] {
        return Err(InvalidAddress);
      }
      if msg.nonce < 0 {
        return Err(InvalidEthNonce);
      }
      if !IsValidEthAddress(msg.ethereumSender) {
        return Err(InvalidEthAddress);
      }
      ghost var before := View();
      var (oracleId, validator, claimString) := CreateOracleClaimFromEthClaim(oracle.codec, msg);
      var status := oracle.ProcessClaim(oracleId, validator, claimString);
      ghost var polls := oracle.polls;
      assert Processes(Env().threshold, before.staking, before.polls, MsgId(msg), MsgBallot(Env(), msg), status, polls);
      if status.Err? {
        r := Err(OracleRefused(status.error));
        assert Finishes(Env(), before, status, polls, r, before);
        return;
      }
      if status.value.text == Success {
        var err := ProcessSuccessfulClaim(status.value.finalClaim);
        if err.Some? {
          r := Err(err.value);
          assert Finishes(Env(), before, status, polls, r, before);
          return;
        }
      }
      r := Ok(status.value.text);
      assert Finishes(Env(), before, status, polls, r, View());
    }

    /** Delivery of a message: when the handler reports an error, the SDK discards everything it wrote. */
    method Deliver(msg: EthBridgeClaim) returns (r: Result<StatusText, BridgeError>)
      requires Valid()
      modifies oracle`store, oracle`polls, bank`coins
      ensures Valid()
      ensures Handles(Env(), old(View()), msg, r, View())
    {
      var store, coins := oracle.store, bank.coins;
      ghost var polls := oracle.polls;
      r := HandleMsgMakeEthBridgeClaim(msg);
      if r.Err? {
        oracle.store, oracle.polls, bank.coins := store, polls, coins;
      }
    }
  }
}
