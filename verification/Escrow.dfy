/**
 The Ethereum side on values: Peggy and Processor, the tokens and the ether around them, as one machine
 whose transitions are transactions. A transaction that reverts changes nothing.
 */
module Escrow {
  import opened Wrappers
  import opened Addresses
  import opened Sums
  import opened Erc20
  import opened ItemKeys

  datatype Item = Item(
    sender: EthAddress, recipient: Bytes, token: EthAddress, amount: uint256, nonce: uint256, locked: bool)

  /** What reading an absent key of the items mapping gives. */
  const NO_ITEM := Item(ZERO_ADDRESS, [], ZERO_ADDRESS, 0, 0, false)

  datatype LogEvent =
    | LogLock(id: Hash, from: EthAddress, to: Bytes, token: EthAddress, value: uint256, nonce: uint256)
    | LogUnlock(id: Hash, receiver: EthAddress, token: EthAddress, value: uint256, nonce: uint256)
    | LogWithdraw(id: Hash, receiver: EthAddress, token: EthAddress, value: uint256, nonce: uint256)
    | LogLockingPaused
    | LogLockingActivated

  type Items = map<Hash, Item>
  type Ether = map<EthAddress, nat>

  datatype World = World(
    self: EthAddress,
    relayer: EthAddress,
    active: bool,
    nonce: uint256,
    items: Items,
    log: seq<LogEvent>,
    ether: Ether,
    tokens: map<EthAddress, Token>)

  function ItemOf(items: Items, id: Hash): Item {
    if id in items then items[id] else NO_ITEM
  }

  function EtherOf(ether: Ether, a: EthAddress): nat {
    if a in ether then ether[a] else 0
  }

  function PayEther(ether: Ether, from: EthAddress, to: EthAddress, amount: nat): Option<Ether> {
    if EtherOf(ether, from) < amount then None
    else
      var less := ether[from := EtherOf(ether, from) - amount];
      Some(less[to := EtherOf(less, to) + amount])
  }

  /** A call to a token; an address without token code reverts. */
  function CallToken(tokens: map<EthAddress, Token>, token: EthAddress, caller: EthAddress, call: TokenCall)
    : Option<map<EthAddress, Token>>
  {
    if token !in tokens then None
    else match Erc20.Exec(tokens[token], caller, call)
      case None => None
      case Some(t) => Some(tokens[token := t])
  }

  // ---------------------------------------------------------------- transactions

  datatype Call =
    | Lock(msgValue: uint256, recipient: Bytes, token: EthAddress, amount: uint256)
    | Unlock(id: Hash)
    | Withdraw(id: Hash)
    | PauseLocking
    | ActivateLocking
    | UseToken(token: EthAddress, call: TokenCall)
    | SendEther(to: EthAddress, wei: nat)
    | ForceEther(to: EthAddress, wei: nat)
    | DeployToken(address: EthAddress)

  datatype Tx = Tx(sender: EthAddress, call: Call)

  predicate NonceAvailable(nonce: uint256) {
    (nonce + 1) % TWO_256 > nonce
  }

  /** The wrap-around test of availableNonce fails exactly at the last nonce. */
  lemma NonceAvailableExactly(nonce: uint256)
    ensures NonceAvailable(nonce) <==> nonce + 1 < TWO_256
    ensures NonceAvailable(nonce) ==> (nonce + 1) % TWO_256 == nonce + 1
  {
  }

  /** Processor.create and the LogLock event. */
  function Create(w: World, sender: EthAddress, recipient: Bytes, token: EthAddress, amount: uint256): World {
    var nonce: uint256 := (w.nonce + 1) % TWO_256;
    var id := ItemKey(sender, recipient, token, amount, nonce);
    w.(nonce := nonce,
       items := w.items[id := Item(sender, recipient, token, amount, nonce, true)],
       log := w.log + [LogLock(id, sender, recipient, token, amount, nonce)])
  }

  /** Taking the funds of a lock: ether sent along, or tokens through the sender's allowance. */
  function TakeFunds(
    w: World, sender: EthAddress, msgValue: uint256, token: EthAddress, amount: uint256): Option<World> {
    if msgValue != 0 then
      if token != ZERO_ADDRESS || msgValue != amount then None
      else match PayEther(w.ether, sender, w.self, msgValue)
        case None => None
        case Some(ether) => Some(w.(ether := ether))
    else
      match CallToken(w.tokens, token, w.self, TransferFrom(sender, w.self, amount))
      case None => None
      case Some(tokens) => Some(w.(tokens := tokens))
  }

  function ExecLock(
    w: World, sender: EthAddress, msgValue: uint256, recipient: Bytes, token: EthAddress,
    amount: uint256): Option<World>
  {
    if !NonceAvailable(w.nonce) || !w.active then None
    else match TakeFunds(w, sender, msgValue, token, amount)
      case None => None
      case Some(w1) => Some(Create(w1, sender, recipient, token, amount))
  }

  predicate CanDeliver(w: World, item: Item) {
    if item.token == ZERO_ADDRESS then EtherOf(w.ether, w.self) >= item.amount
    else item.token in w.tokens && w.tokens[item.token].BalanceOf(w.self) >= item.amount
  }

  /** The world in which an item's lock has been cleared and nothing has been sent yet. */
  function Cleared(w: World, id: Hash): World {
    w.(items := w.items[id := ItemOf(w.items, id).(locked := false)])
  }

  /** An outgoing transfer from Peggy, of ether for the zero token. */
  function SendFunds(w: World, to: EthAddress, token: EthAddress, amount: uint256): Option<World> {
    if token == ZERO_ADDRESS then
      match PayEther(w.ether, w.self, to, amount)
      case None => None
      case Some(ether) => Some(w.(ether := ether))
    else
      match CallToken(w.tokens, token, w.self, Transfer(to, amount))
      case None => None
      case Some(tokens) => Some(w.(tokens := tokens))
  }

  /** Processor.complete: clear the lock, then send the funds to the original sender. */
  function Complete(w: World, id: Hash): Option<World> {
    var item := ItemOf(w.items, id);
    if !CanDeliver(w, item) || !item.locked then None
    else SendFunds(Cleared(w, id), item.sender, item.token, item.amount)
  }

  function Released(w: World, e: LogEvent): World {
    w.(log := w.log + [e])
  }

  function UnlockEvent(w: World, id: Hash): LogEvent {
    var item := ItemOf(w.items, id);
    LogUnlock(id, item.sender, item.token, item.amount, item.nonce)
  }

  function WithdrawEvent(w: World, id: Hash): LogEvent {
    var item := ItemOf(w.items, id);
    LogWithdraw(id, item.sender, item.token, item.amount, item.nonce)
  }

  function ExecUnlock(w: World, sender: EthAddress, id: Hash): Option<World> {
    if sender != w.relayer then None
    else match Complete(w, id)
      case None => None
      case Some(w') => Some(Released(w', UnlockEvent(w, id)))
  }

  function ExecWithdraw(w: World, sender: EthAddress, id: Hash): Option<World> {
    if sender != ItemOf(w.items, id).sender then None
    else match Complete(w, id)
      case None => None
      case Some(w') => Some(Released(w', WithdrawEvent(w, id)))
  }

  /** pauseLocking and activateLocking, told apart by the new value of the flag. */
  function ExecSetActive(w: World, sender: EthAddress, active: bool): Option<World> {
    if sender != w.relayer || w.active == active then None
    else Some(w.(active := active, log := w.log + [if active then LogLockingActivated else LogLockingPaused]))
  }

  /**
   One transaction; None is a revert. Peggy has no payable fallback, so only self-destructing contracts can force
   ether on it.
   */
  function Exec(w: World, tx: Tx): Option<World> {
    match tx.call
    case Lock(msgValue, recipient, token, amount) => ExecLock(w, tx.sender, msgValue, recipient, token, amount)
    case Unlock(id) => ExecUnlock(w, tx.sender, id)
    case Withdraw(id) => ExecWithdraw(w, tx.sender, id)
    case PauseLocking => ExecSetActive(w, tx.sender, false)
    case ActivateLocking => ExecSetActive(w, tx.sender, true)
    case UseToken(token, call) =>
      (match CallToken(w.tokens, token, tx.sender, call)
       case None => None
       case Some(tokens) => Some(w.(tokens := tokens)))
    case SendEther(to, amount) =>
      if to == w.self then None
      else (match PayEther(w.ether, tx.sender, to, amount)
            case None => None
            case Some(ether) => Some(w.(ether := ether)))
    case ForceEther(to, amount) =>
      (match PayEther(w.ether, tx.sender, to, amount)
       case None => None
       case Some(ether) => Some(w.(ether := ether)))
    case DeployToken(address) =>
      if address == ZERO_ADDRESS || address == w.self || address in w.tokens then None
      else Some(w.(tokens := w.tokens[address := NEW_TOKEN]))
  }

  /** Nobody sends as the zero address, and Peggy itself sends no transactions. */
  predicate CanSend(w: World, tx: Tx) {
    tx.sender != ZERO_ADDRESS && tx.sender != w.self
  }

  function Step(w: World, tx: Tx): World {
    if !CanSend(w, tx) then w
    else match Exec(w, tx)
      case None => w
      case Some(w') => w'
  }

  function Run(w: World, txs: seq<Tx>): World {
    if txs == [] then w else Step(Run(w, txs[..|txs| - 1]), txs[|txs| - 1])
  }

  // ---------------------------------------------------------------- what never changes

  ghost predicate ItemInv(self: EthAddress, nonce: uint256, tokens: set<EthAddress>, id: Hash, item: Item) {
    && id == ItemKey(item.sender, item.recipient, item.token, item.amount, item.nonce)
    && 0 < item.nonce <= nonce
    && item.sender != ZERO_ADDRESS && item.sender != self
    && (item.token == ZERO_ADDRESS || item.token in tokens)
  }

  ghost predicate ItemsInv(self: EthAddress, nonce: uint256, tokens: set<EthAddress>, items: Items) {
    forall id :: id in items ==> ItemInv(self, nonce, tokens, id, items[id])
  }

  ghost predicate TokensInv(self: EthAddress, tokens: map<EthAddress, Token>) {
    && ZERO_ADDRESS !in tokens
    && forall a :: a in tokens ==> Balanced(tokens[a]) && AllowsNothing(tokens[a], self)
  }

  /** Tokens are balanced, Peggy has allowed nothing to anyone, and every item is what a lock made it. */
  ghost predicate Inv(w: World) {
    && w.self != ZERO_ADDRESS
    && TokensInv(w.self, w.tokens)
    && ItemsInv(w.self, w.nonce, w.tokens.Keys, w.items)
  }

  /** The world right after Peggy's constructor: any tokens and ether may already exist. */
  ghost predicate Start(w: World) {
    && w.self != ZERO_ADDRESS && TokensInv(w.self, w.tokens)
    && w.active && w.nonce == 0 && w.items == map[] && w.log == [LogLockingActivated]
  }

  /** Peggy's balance in a token, or in ether for the zero address. */
  function Balance(w: World, token: EthAddress): int {
    if token == ZERO_ADDRESS then EtherOf(w.ether, w.self)
    else if token in w.tokens then w.tokens[token].BalanceOf(w.self)
    else 0
  }

  lemma TokenCallKeepsInv(
    self: EthAddress, tokens: map<EthAddress, Token>, token: EthAddress, caller: EthAddress, call: TokenCall)
    requires TokensInv(self, tokens) && CallToken(tokens, token, caller, call).Some?
    requires caller != self || (call.TransferFrom? && call.from != self) || call.Transfer?
    ensures TokensInv(self, CallToken(tokens, token, caller, call).value)
    ensures caller != self ==>
              tokens[token].BalanceOf(self) <= CallToken(tokens, token, caller, call).value[token].BalanceOf(self)
  {
    var t := tokens[token];
    var t' := CallToken(tokens, token, caller, call).value[token];
    ExecKeepsBalanced(t, caller, call);
    if caller != self {
      ExecCannotTakeFrom(t, caller, call, self);
    } else if call.TransferFrom? {
      var t1 := Spend(t, call.from, caller, call.value).value;
      MoveSucceedsExactly(t1, call.from, call.to, call.value);
      AllowsNothingAfter(t, t', self, (call.from, caller), t.Allowance(call.from, caller) - call.value);
    } else {
      MoveSucceedsExactly(t, caller, call.to, call.value);
      AllowsNothingAfter(t, t', self, (caller, caller), 0);
    }
  }

  lemma PayEtherEffect(ether: Ether, from: EthAddress, to: EthAddress, amount: nat, a: EthAddress)
    requires PayEther(ether, from, to, amount).Some?
    ensures EtherOf(PayEther(ether, from, to, amount).value, a) ==
              EtherOf(ether, a) - (if a == from then amount else 0) + (if a == to then amount else 0)
  {
  }

  // ---------------------------------------------------------------- what each transaction does

  lemma TakeFundsEffect(
    w: World, sender: EthAddress, msgValue: uint256, token: EthAddress, amount: uint256, t: EthAddress)
    requires Inv(w) && sender != w.self && TakeFunds(w, sender, msgValue, token, amount).Some?
    ensures
      var w' := TakeFunds(w, sender, msgValue, token, amount).value;
      && w' == w.(ether := w'.ether, tokens := w'.tokens)
      && Inv(w') && (token == ZERO_ADDRESS || token in w'.tokens)
      && Balance(w', t) == Balance(w, t) + if t == token then amount else 0
  {
    if msgValue != 0 {
      PayEtherEffect(w.ether, sender, w.self, msgValue, w.self);
    } else {
      var call := TransferFrom(sender, w.self, amount);
      TokenCallKeepsInv(w.self, w.tokens, token, w.self, call);
      assert CallToken(w.tokens, token, w.self, call).value.Keys == w.tokens.Keys;
      MoveSucceedsExactly(Spend(w.tokens[token], sender, w.self, amount).value, sender, w.self, amount);
    }
  }

  lemma CreateEffect(w: World, sender: EthAddress, recipient: Bytes, token: EthAddress, amount: uint256)
    requires Inv(w) && NonceAvailable(w.nonce)
    requires sender != ZERO_ADDRESS && sender != w.self && (token == ZERO_ADDRESS || token in w.tokens)
    ensures w.nonce + 1 < TWO_256
    ensures
      var w' := Create(w, sender, recipient, token, amount);
      var id := ItemKey(sender, recipient, token, amount, w.nonce + 1);
      && id !in w.items && w'.items == w.items[id := Item(sender, recipient, token, amount, w.nonce + 1, true)]
      && w'.nonce == w.nonce + 1
      && w'.log == w.log + [LogLock(id, sender, recipient, token, amount, w.nonce + 1)]
      && Inv(w')
  {
    NonceAvailableExactly(w.nonce);
    KeyUnused(w, sender, recipient, token, amount);
    var w' := Create(w, sender, recipient, token, amount);
    forall id | id in w'.items
      ensures ItemInv(w'.self, w'.nonce, w'.tokens.Keys, id, w'.items[id])
    {
      if id in w.items {
        assert ItemInv(w.self, w.nonce, w.tokens.Keys, id, w.items[id]);
      }
    }
  }

  /** In a reachable world a lock creates an item under a key never used before and raises the balance by its amount. */
  lemma LockEffect(
    w: World, sender: EthAddress, msgValue: uint256, recipient: Bytes, token: EthAddress, amount: uint256,
    t: EthAddress)
    requires Inv(w) && sender != ZERO_ADDRESS && sender != w.self
    requires ExecLock(w, sender, msgValue, recipient, token, amount).Some?
    ensures w.nonce + 1 < TWO_256
    ensures
      var w' := ExecLock(w, sender, msgValue, recipient, token, amount).value;
      var id := ItemKey(sender, recipient, token, amount, w.nonce + 1);
      && id !in w.items && w'.items == w.items[id := Item(sender, recipient, token, amount, w.nonce + 1, true)]
      && w'.nonce == w.nonce + 1
      && w'.log == w.log + [LogLock(id, sender, recipient, token, amount, w.nonce + 1)]
      && w'.self == w.self && w'.relayer == w.relayer
      && Inv(w')
      && Balance(w', t) == Balance(w, t) + if t == token then amount else 0
  {
    TakeFundsEffect(w, sender, msgValue, token, amount, t);
    CreateEffect(TakeFunds(w, sender, msgValue, token, amount).value, sender, recipient, token, amount);
  }

  lemma KeyUnused(w: World, sender: EthAddress, recipient: Bytes, token: EthAddress, amount: uint256)
    requires Inv(w) && w.nonce + 1 < TWO_256
    ensures ItemKey(sender, recipient, token, amount, w.nonce + 1) !in w.items
  {
    var id := ItemKey(sender, recipient, token, amount, w.nonce + 1);
    if id in w.items {
      var item := w.items[id];
      assert ItemInv(w.self, w.nonce, w.tokens.Keys, id, item);
      ItemKeyInjective(sender, recipient, token, amount, w.nonce + 1,
                       item.sender, item.recipient, item.token, item.amount, item.nonce);
    }
  }

  lemma ClearKeepsItems(self: EthAddress, nonce: uint256, tokens: set<EthAddress>, items: Items, id: Hash)
    requires ItemsInv(self, nonce, tokens, items) && id in items
    ensures ItemsInv(self, nonce, tokens, items[id := items[id].(locked := false)])
  {
    var items' := items[id := items[id].(locked := false)];
    forall k | k in items' ensures ItemInv(self, nonce, tokens, k, items'[k]) {
      assert ItemInv(self, nonce, tokens, k, items[k]);
    }
  }

  lemma SendFundsEffect(w: World, to: EthAddress, token: EthAddress, amount: uint256, t: EthAddress)
    requires Inv(w) && to != w.self && SendFunds(w, to, token, amount).Some?
    ensures
      var w' := SendFunds(w, to, token, amount).value;
      && w' == w.(ether := w'.ether, tokens := w'.tokens)
      && Inv(w')
      && Balance(w', t) == Balance(w, t) - if t == token then amount else 0
  {
    if token == ZERO_ADDRESS {
      PayEtherEffect(w.ether, w.self, to, amount, w.self);
    } else {
      var call := Transfer(to, amount);
      TokenCallKeepsInv(w.self, w.tokens, token, w.self, call);
      assert CallToken(w.tokens, token, w.self, call).value.Keys == w.tokens.Keys;
      MoveSucceedsExactly(w.tokens[token], w.self, to, amount);
    }
  }

  /** A release clears the lock of a locked item, once, and lowers the balance by its amount. */
  lemma CompleteEffect(w: World, id: Hash, t: EthAddress)
    requires Inv(w) && Complete(w, id).Some?
    ensures
      var w' := Complete(w, id).value;
      && id in w.items && w.items[id].locked
      && w' == Cleared(w, id).(ether := w'.ether, tokens := w'.tokens)
      && Inv(w')
      && Balance(w', t) == Balance(w, t) - if t == w.items[id].token then w.items[id].amount else 0
  {
    var item := w.items[id];
    assert ItemInv(w.self, w.nonce, w.tokens.Keys, id, item);
    ClearKeepsItems(w.self, w.nonce, w.tokens.Keys, w.items, id);
    SendFundsEffect(Cleared(w, id), item.sender, item.token, item.amount, t);
  }

  predicate CallsPeggy(call: Call) {
    call.Lock? || call.Unlock? || call.Withdraw? || call.PauseLocking? || call.ActivateLocking?
  }

  /** A transaction that does not call Peggy leaves its state alone and can only add to its balances. */
  lemma OutsideEffect(w: World, tx: Tx, t: EthAddress)
    requires Inv(w) && CanSend(w, tx) && !CallsPeggy(tx.call) && Exec(w, tx).Some?
    ensures
      var w' := Exec(w, tx).value;
      && w' == w.(ether := w'.ether, tokens := w'.tokens)
      && Inv(w')
      && Balance(w, t) <= Balance(w', t)
  {
    match tx.call
    case UseToken(token, call) =>
      TokenCallKeepsInv(w.self, w.tokens, token, tx.sender, call);
      assert CallToken(w.tokens, token, tx.sender, call).value.Keys == w.tokens.Keys;
    case SendEther(to, amount) => PayEtherEffect(w.ether, tx.sender, to, amount, w.self);
    case ForceEther(to, amount) => PayEtherEffect(w.ether, tx.sender, to, amount, w.self);
    case DeployToken(address) => DeployKeepsInv(w, address);
  }

  lemma DeployKeepsInv(w: World, address: EthAddress)
    requires Inv(w) && address != ZERO_ADDRESS && address !in w.tokens
    ensures Inv(w.(tokens := w.tokens[address := NEW_TOKEN]))
  {
    var none: map<EthAddress, int> := map[];
    assert MapSum(none) == 0;
    assert Balanced(NEW_TOKEN) && AllowsNothing(NEW_TOKEN, w.self);
    var tokens := w.tokens[address := NEW_TOKEN];
    forall id | id in w.items
      ensures ItemInv(w.self, w.nonce, tokens.Keys, id, w.items[id])
    {
      assert ItemInv(w.self, w.nonce, w.tokens.Keys, id, w.items[id]);
    }
  }

  lemma ReleaseKeepsInv(w: World, id: Hash, e: LogEvent)
    requires Inv(w)
    ensures Complete(w, id).Some? ==>
              var w' := Released(Complete(w, id).value, e);
              Inv(w') && w'.self == w.self && w'.relayer == w.relayer
  {
    if Complete(w, id).Some? {
      CompleteEffect(w, id, ZERO_ADDRESS);
    }
  }

  lemma PeggyKeepsInv(w: World, tx: Tx)
    requires Inv(w) && CanSend(w, tx) && CallsPeggy(tx.call) && Exec(w, tx).Some?
    ensures Inv(Exec(w, tx).value) && Exec(w, tx).value.self == w.self && Exec(w, tx).value.relayer == w.relayer
  {
    match tx.call
    case Lock(msgValue, recipient, token, amount) =>
      LockEffect(w, tx.sender, msgValue, recipient, token, amount, token);
    case Unlock(id) => ReleaseKeepsInv(w, id, UnlockEvent(w, id));
    case Withdraw(id) => ReleaseKeepsInv(w, id, WithdrawEvent(w, id));
    case _ =>
  }

  lemma StepKeepsInv(w: World, tx: Tx)
    requires Inv(w)
    ensures Inv(Step(w, tx)) && Step(w, tx).self == w.self && Step(w, tx).relayer == w.relayer
  {
    if CanSend(w, tx) && Exec(w, tx).Some? {
      if CallsPeggy(tx.call) {
        PeggyKeepsInv(w, tx);
      } else {
        OutsideEffect(w, tx, ZERO_ADDRESS);
      }
    }
  }

  lemma {:induction false} RunKeepsInv(w: World, txs: seq<Tx>)
    requires Inv(w)
    ensures Inv(Run(w, txs)) && Run(w, txs).self == w.self && Run(w, txs).relayer == w.relayer
  {
    if txs != [] {
      RunKeepsInv(w, txs[..|txs| - 1]);
      StepKeepsInv(Run(w, txs[..|txs| - 1]), txs[|txs| - 1]);
    }
  }
}
