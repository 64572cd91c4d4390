/** The contract object: Peggy with the fields it inherits from Processor, over token contracts and ether. */
module PeggyContract {
  import opened Wrappers
  import opened Addresses
  import opened Erc20
  import opened ItemKeys
  import opened Escrow

  class Peggy {
    const self: EthAddress
    const relayer: EthAddress
    var active: bool
    var nonce: uint256
    var items: Items
    var log: seq<LogEvent>
    /** The rest of the chain that the contract calls: ether balances and token contracts. */
    var ether: Ether
    const tokens: map<EthAddress, ERC20>

    ghost predicate Valid() {
      forall a, b :: a in tokens && b in tokens && tokens[a] == tokens[b] ==> a == b
    }

    ghost function Contracts(): set<ERC20> {
      set a | a in tokens :: tokens[a]
    }

    ghost function Tokens(): map<EthAddress, Token>
      reads Contracts()
    {
      map a | a in tokens :: tokens[a].View()
    }

    ghost function View(): World
      reads this, Contracts()
    {
      World(self, relayer, active, nonce, items, log, ether, Tokens())
    }

    constructor (self: EthAddress, deployer: EthAddress, ether: Ether, tokens: map<EthAddress, ERC20>)
      ensures this.tokens == tokens
      ensures View() == World(self, deployer, true, 0, map[], [LogLockingActivated], ether, Tokens())
    {
      this.self, this.relayer, this.ether, this.tokens := self, deployer, ether, tokens;
      active, nonce, items, log := true, 0, map[], [LogLockingActivated];
    }

    /** A call from Peggy to a token contract. */
    method CallTokenContract(token: EthAddress, call: TokenCall) returns (ok: bool)
      requires Valid()
      modifies Contracts()
      ensures ok <==> CallToken(old(Tokens()), token, self, call).Some?
      ensures Tokens() == if ok then CallToken(old(Tokens()), token, self, call).value else old(Tokens())
    {
      if token !in tokens {
        return false;
      }
      assert tokens[token] in Contracts();
      ok := tokens[token].Call(self, call);
      assert Tokens() == old(Tokens())[token := tokens[token].View()];
    }

    /** Processor.create. */
    method Create(sender: EthAddress, recipient: Bytes, token: EthAddress, amount: uint256) returns (itemKey: Hash)
      modifies this`nonce, this`items
      ensures nonce == (old(nonce) + 1) % TWO_256
      ensures itemKey == ItemKey(sender, recipient, token, amount, nonce)
      ensures items == old(items)[itemKey := Item(sender, recipient, token, amount, nonce, true)]
    {
      nonce := (nonce + 1) % TWO_256;
      itemKey := ItemKey(sender, recipient, token, amount, nonce);
      items := items[itemKey := Item(sender, recipient, token, amount, nonce, true)];
    }

    /** The first half of lock: the ether sent along, or tokens through the sender's allowance. */
    method CollectFunds(sender: EthAddress, msgValue: uint256, token: EthAddress, amount: uint256) returns (ok: bool)
      requires Valid()
      modifies this`ether, Contracts()
      ensures ok <==> TakeFunds(old(View()), sender, msgValue, token, amount).Some?
      ensures View() == if ok then TakeFunds(old(View()), sender, msgValue, token, amount).value else old(View())
    {
      if msgValue != 0 {
        if token != ZERO_ADDRESS || msgValue != amount {
          return false;
        }
        var paid := PayEther(ether, sender, self, msgValue);
        if paid == None {
          return false;
        }
        ether := paid.value;
        return true;
      } else {
        ok := CallTokenContract(token, TransferFrom(sender, self, amount));
      }
    }

    /** Lock funds under a new item; None is a revert. */
    method Lock(sender: EthAddress, msgValue: uint256, recipient: Bytes, token: EthAddress, amount: uint256)
        returns (id: Option<Hash>)
      requires Valid()
      modifies this, Contracts()
      ensures id.Some? <==> ExecLock(old(View()), sender, msgValue, recipient, token, amount).Some?
      ensures View() ==
                if id.Some? then ExecLock(old(View()), sender, msgValue, recipient, token, amount).value
                else old(View())
      ensures id.Some? ==> id.value == ItemKey(sender, recipient, token, amount, nonce)
    {
      if !NonceAvailable(nonce) || !active {
        return None;
      }
      var ok := CollectFunds(sender, msgValue, token, amount);
      if !ok {
        return None;
      }
      ghost var paid := View();
      var itemKey := Create(sender, recipient, token, amount);
      log := log + [LogLock(itemKey, sender, recipient, token, amount, nonce)];
      assert View() == Escrow.Create(paid, sender, recipient, token, amount);
      return Some(itemKey);
    }

    /** The guard canDeliver: Peggy holds the item's amount; a call to an address without token code reverts. */
    method HoldsFundsOf(item: Item) returns (ok: bool)
      ensures ok <==> CanDeliver(View(), item)
    {
      if item.token == ZERO_ADDRESS {
        ok := EtherOf(ether, self) >= item.amount;
      } else {
        ok := item.token in tokens && tokens[item.token].View().BalanceOf(self) >= item.amount;
      }
    }

    /** The outgoing transfer of a release. */
    method Send(to: EthAddress, token: EthAddress, amount: uint256) returns (ok: bool)
      requires Valid()
      modifies this`ether, Contracts()
      ensures ok <==> SendFunds(old(View()), to, token, amount).Some?
      ensures View() == if ok then SendFunds(old(View()), to, token, amount).value else old(View())
    {
      if token == ZERO_ADDRESS {
        var paid := PayEther(ether, self, to, amount);
        if paid == None {
          return false;
        }
        ether := paid.value;
        return true;
      }
      ok := CallTokenContract(token, Transfer(to, amount));
    }

    /** Processor.complete: clear the lock first, then transfer; a failed transfer reverts the whole call. */
    method CompleteItem(id: Hash) returns (ok: bool)
      requires Valid()
      modifies this`items, this`ether, Contracts()
      ensures ok <==> Complete(old(View()), id).Some?
      ensures View() == if ok then Complete(old(View()), id).value else old(View())
    {
      var item := ItemOf(items, id);
      var funded := HoldsFundsOf(item);
      if !funded || !item.locked {
        return false;
      }
      ghost var entry := View();
      var before := items;
      items := items[id := item.(locked := false)];
      assert View() == Cleared(entry, id);
      ok := Send(item.sender, item.token, item.amount);
      if !ok {
        items := before;
      }
    }

    method Unlock(sender: EthAddress, id: Hash) returns (ok: bool)
      requires Valid()
      modifies this, Contracts()
      ensures ok <==> ExecUnlock(old(View()), sender, id).Some?
      ensures View() == if ok then ExecUnlock(old(View()), sender, id).value else old(View())
    {
      if sender != relayer {
        return false;
      }
      var item := ItemOf(items, id);
      ok := CompleteItem(id);
      if ok {
        log := log + [LogUnlock(id, item.sender, item.token, item.amount, item.nonce)];
      }
    }

    method Withdraw(sender: EthAddress, id: Hash) returns (ok: bool)
      requires Valid()
      modifies this, Contracts()
      ensures ok <==> ExecWithdraw(old(View()), sender, id).Some?
      ensures View() == if ok then ExecWithdraw(old(View()), sender, id).value else old(View())
    {
      var item := ItemOf(items, id);
      if sender != item.sender {
        return false;
      }
      ok := CompleteItem(id);
      if ok {
        log := log + [LogWithdraw(id, item.sender, item.token, item.amount, item.nonce)];
      }
    }

    method PauseLocking(sender: EthAddress) returns (ok: bool)
      modifies this`active, this`log
      ensures ok <==> ExecSetActive(old(View()), sender, false).Some?
      ensures View() == if ok then ExecSetActive(old(View()), sender, false).value else old(View())
    {
      if sender != relayer || !active {
        return false;
      }
      active := false;
      log := log + [LogLockingPaused];
      return true;
    }

    method ActivateLocking(sender: EthAddress) returns (ok: bool)
      modifies this`active, this`log
      ensures ok <==> ExecSetActive(old(View()), sender, true).Some?
      ensures View() == if ok then ExecSetActive(old(View()), sender, true).value else old(View())
    {
      if sender != relayer || active {
        return false;
      }
      active := true;
      log := log + [LogLockingActivated];
      return true;
    }
  }
}
