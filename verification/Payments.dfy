/**
 Who pays and who is paid: the effect of locks and releases on every account, in ether and in every token, that nothing
 is created or lost on the way, and what pausing does.
 */
module Payments {
  import opened Wrappers
  import opened Addresses
  import opened Sums
  import opened Histories
  import opened Erc20
  import opened ItemKeys
  import opened Escrow
  import opened EscrowRuns

  /** The amount moved from one account to another in one token, and no other account's holdings changed in any. */
  ghost predicate Pays(w: World, w': World, token: EthAddress, from: EthAddress, to: EthAddress, amount: int) {
    forall t, a ::
      Held(w', t, a) ==
        Held(w, t, a) - (if t == token && a == from then amount else 0) + (if t == token && a == to then amount else 0)
  }

  /** No allowance and no total supply of any token changed, except this allowance. */
  ghost predicate OnlyAllowance(w: World, w': World, token: EthAddress, owner: EthAddress, spender: EthAddress) {
    && w'.tokens.Keys == w.tokens.Keys
    && forall t :: t in w.tokens ==>
         && w'.tokens[t].totalSupply == w.tokens[t].totalSupply
         && forall o, s :: t != token || o != owner || s != spender ==>
              w'.tokens[t].Allowance(o, s) == w.tokens[t].Allowance(o, s)
  }

  lemma EtherPays(w: World, w': World, from: EthAddress, to: EthAddress, amount: nat)
    requires PayEther(w.ether, from, to, amount) == Some(w'.ether) && w'.tokens == w.tokens
    ensures Pays(w, w', ZERO_ADDRESS, from, to, amount)
  {
    forall a
      ensures EtherOf(w'.ether, a) ==
                EtherOf(w.ether, a) - (if a == from then amount else 0) + (if a == to then amount else 0)
    {
      PayEtherEffect(w.ether, from, to, amount, a);
    }
  }

  lemma TokenPays(w: World, w': World, token: EthAddress, t': Token, from: EthAddress, to: EthAddress, amount: nat)
    requires token in w.tokens && token != ZERO_ADDRESS && w'.tokens == w.tokens[token := t'] && w'.ether == w.ether
    requires Moved(w.tokens[token], t', from, to, amount)
    ensures Pays(w, w', token, from, to, amount)
  {
  }

  // ---------------------------------------------------------------- a lock

  lemma TakeFundsPays(w: World, sender: EthAddress, msgValue: uint256, token: EthAddress, amount: uint256)
    requires Inv(w) && TakeFunds(w, sender, msgValue, token, amount).Some?
    ensures
      var w' := TakeFunds(w, sender, msgValue, token, amount).value;
      && Pays(w, w', token, sender, w.self, amount)
      && OnlyAllowance(w, w', token, sender, w.self)
      && (msgValue != 0 ==> w'.tokens == w.tokens)
      && (msgValue == 0 ==> token in w'.tokens && w'.tokens[token].Allowance(sender, w.self) ==
                                                    w.tokens[token].Allowance(sender, w.self) - amount)
  {
    var w' := TakeFunds(w, sender, msgValue, token, amount).value;
    if msgValue != 0 {
      EtherPays(w, w', sender, w.self, amount);
    } else {
      TransferFromExactly(w.tokens[token], w.self, sender, w.self, amount);
      TokenPays(w, w', token, w'.tokens[token], sender, w.self, amount);
    }
  }

  /**
   On every run a successful lock takes exactly its amount from the sender and gives it to Peggy, in its own token; a
   lock of tokens uses up that much of what the sender allowed to Peggy, and one of ether touches no token.
   */
  lemma LockPays(
    w: World, txs: seq<Tx>, sender: EthAddress, msgValue: uint256, recipient: Bytes, token: EthAddress, amount: uint256)
    requires Start(w)
    requires ExecLock(Run(w, txs), sender, msgValue, recipient, token, amount).Some?
    ensures
      var v := Run(w, txs);
      var v' := ExecLock(v, sender, msgValue, recipient, token, amount).value;
      && Pays(v, v', token, sender, v.self, amount)
      && OnlyAllowance(v, v', token, sender, v.self)
      && (msgValue != 0 ==> v'.tokens == v.tokens)
      && (msgValue == 0 ==> token in v'.tokens && v'.tokens[token].Allowance(sender, v.self) ==
                                                    v.tokens[token].Allowance(sender, v.self) - amount)
  {
    StartInv(w);
    RunKeepsInv(w, txs);
    TakeFundsPays(Run(w, txs), sender, msgValue, token, amount);
  }

  // ---------------------------------------------------------------- a release

  /** The world differs only in funds, in the lock flag of this item, and by this event. */
  ghost predicate OnlyReleases(w: World, w': World, id: Hash, e: LogEvent) {
    && id in w.items
    && w' == w.(items := w.items[id := w.items[id].(locked := false)], log := w.log + [e],
                ether := w'.ether, tokens := w'.tokens)
  }

  lemma CompletePays(w: World, id: Hash)
    requires Inv(w) && Complete(w, id).Some?
    ensures
      var item, w' := ItemOf(w.items, id), Complete(w, id).value;
      && Pays(w, w', item.token, w.self, item.sender, item.amount)
      && OnlyAllowance(w, w', ZERO_ADDRESS, ZERO_ADDRESS, ZERO_ADDRESS)
  {
    var item, w' := ItemOf(w.items, id), Complete(w, id).value;
    if item.token == ZERO_ADDRESS {
      EtherPays(w, w', w.self, item.sender, item.amount);
    } else {
      TransferExactly(w.tokens[item.token], w.self, item.sender, item.amount);
      TokenPays(w, w', item.token, w'.tokens[item.token], w.self, item.sender, item.amount);
    }
  }

  lemma ReleaseEnabled(w: World, txs: seq<Tx>, id: Hash, e: LogEvent)
    requires Start(w) && id in Run(w, txs).items && Run(w, txs).items[id].locked
    ensures Complete(Run(w, txs), id).Some?
    ensures
      var v := Run(w, txs);
      var item, v' := v.items[id], Released(Complete(v, id).value, e);
      && OnlyReleases(v, v', id, e)
      && Pays(v, v', item.token, v.self, item.sender, item.amount)
      && OnlyAllowance(v, v', ZERO_ADDRESS, ZERO_ADDRESS, ZERO_ADDRESS)
      && item.sender != ZERO_ADDRESS && item.sender != v.self
  {
    var v := Run(w, txs);
    Solvency(w, txs, v.items[id].token);
    ItemIsOwed(v.items, id);
    CompleteEnabled(v, id);
    CompletePays(v, id);
    ReleasedPays(v, id, e);
  }

  lemma ReleasedPays(w: World, id: Hash, e: LogEvent)
    requires id in w.items && Complete(w, id).Some?
    requires
      var done := Complete(w, id).value;
      done == Cleared(w, id).(ether := done.ether, tokens := done.tokens)
    requires Pays(w, Complete(w, id).value, w.items[id].token, w.self, w.items[id].sender, w.items[id].amount)
    requires OnlyAllowance(w, Complete(w, id).value, ZERO_ADDRESS, ZERO_ADDRESS, ZERO_ADDRESS)
    ensures
      var item, w' := w.items[id], Released(Complete(w, id).value, e);
      && OnlyReleases(w, w', id, e)
      && Pays(w, w', item.token, w.self, item.sender, item.amount)
      && OnlyAllowance(w, w', ZERO_ADDRESS, ZERO_ADDRESS, ZERO_ADDRESS)
  {
    var done, w' := Complete(w, id).value, Released(Complete(w, id).value, e);
    assert forall t, a :: Held(w', t, a) == Held(done, t, a);
  }

  /**
   Withdrawal is always enabled: whether or not locking is paused, the original sender of a locked item can withdraw it.
   The item's amount moves from Peggy to that sender and nothing else moves; nothing else changes but the item's flag
   and the log.
   */
  lemma WithdrawEnabled(w: World, txs: seq<Tx>, id: Hash)
    requires Start(w) && id in Run(w, txs).items && Run(w, txs).items[id].locked
    ensures
      var v := Run(w, txs);
      var item := v.items[id];
      var v' := Step(v, Tx(item.sender, Withdraw(id)));
      && OnlyReleases(v, v', id, LogWithdraw(id, item.sender, item.token, item.amount, item.nonce))
      && Pays(v, v', item.token, v.self, item.sender, item.amount)
      && OnlyAllowance(v, v', ZERO_ADDRESS, ZERO_ADDRESS, ZERO_ADDRESS)
  {
    var v := Run(w, txs);
    ReleaseEnabled(w, txs, id, WithdrawEvent(v, id));
    WithdrawStep(v, id);
  }

  /** The relayer can unlock every locked item, and that too pays its original sender, not the relayer. */
  lemma UnlockEnabled(w: World, txs: seq<Tx>, id: Hash)
    requires Start(w) && id in Run(w, txs).items && Run(w, txs).items[id].locked
    requires w.relayer != ZERO_ADDRESS && w.relayer != w.self
    ensures
      var v := Run(w, txs);
      var item := v.items[id];
      var v' := Step(v, Tx(w.relayer, Unlock(id)));
      && OnlyReleases(v, v', id, LogUnlock(id, item.sender, item.token, item.amount, item.nonce))
      && Pays(v, v', item.token, v.self, item.sender, item.amount)
      && OnlyAllowance(v, v', ZERO_ADDRESS, ZERO_ADDRESS, ZERO_ADDRESS)
  {
    var v := Run(w, txs);
    StartInv(w);
    RunKeepsInv(w, txs);
    ReleaseEnabled(w, txs, id, UnlockEvent(v, id));
    UnlockStep(v, id);
  }

  lemma UnlockStep(w: World, id: Hash)
    requires id in w.items && Complete(w, id).Some? && w.relayer != ZERO_ADDRESS && w.relayer != w.self
    ensures Step(w, Tx(w.relayer, Unlock(id))) == Released(Complete(w, id).value, UnlockEvent(w, id))
  {
  }

  // ---------------------------------------------------------------- transactions that do not call Peggy

  /** Ether sent between accounts; only a forced transfer reaches Peggy. */
  lemma EtherTransferExactly(w: World, sender: EthAddress, to: EthAddress, amount: nat)
    ensures
      var r := Escrow.Exec(w, Tx(sender, SendEther(to, amount)));
      && (r.Some? <==> to != w.self && amount <= Held(w, ZERO_ADDRESS, sender))
      && (r.Some? ==> r.value == w.(ether := r.value.ether) && Pays(w, r.value, ZERO_ADDRESS, sender, to, amount))
    ensures
      var r := Escrow.Exec(w, Tx(sender, ForceEther(to, amount)));
      && (r.Some? <==> amount <= Held(w, ZERO_ADDRESS, sender))
      && (r.Some? ==> r.value == w.(ether := r.value.ether) && Pays(w, r.value, ZERO_ADDRESS, sender, to, amount))
  {
    if amount <= Held(w, ZERO_ADDRESS, sender) {
      EtherPays(w, w.(ether := PayEther(w.ether, sender, to, amount).value), sender, to, amount);
    }
  }

  /** A token call acts on that token as the token says, for its sender, and on nothing else. */
  lemma TokenCallExactly(w: World, sender: EthAddress, token: EthAddress, call: TokenCall)
    ensures
      var r := Escrow.Exec(w, Tx(sender, UseToken(token, call)));
      && (r.Some? <==> token in w.tokens && Erc20.Exec(w.tokens[token], sender, call).Some?)
      && (r.Some? ==> token in r.value.tokens &&
                      Some(r.value.tokens[token]) == Erc20.Exec(w.tokens[token], sender, call) &&
                      r.value == w.(tokens := w.tokens[token := r.value.tokens[token]]))
  {
  }

  // ---------------------------------------------------------------- bystanders

  lemma OutsideBystander(w: World, tx: Tx, t: EthAddress, a: EthAddress)
    requires Inv(w) && !CallsPeggy(tx.call) && Escrow.Exec(w, tx).Some? && a != tx.sender
    requires t in w.tokens ==> AllowsNothing(w.tokens[t], a)
    ensures Held(w, t, a) <= Held(Escrow.Exec(w, tx).value, t, a)
  {
    match tx.call
    case UseToken(token, call) =>
      if t == token {
        ExecCannotTakeFrom(w.tokens[t], tx.sender, call, a);
      }
    case SendEther(to, amount) => PayEtherEffect(w.ether, tx.sender, to, amount, a);
    case ForceEther(to, amount) => PayEtherEffect(w.ether, tx.sender, to, amount, a);
    case DeployToken(address) =>
  }

  /**
   No transaction of someone else lowers what an account holds, in ether or in a token of which it allowed nothing.
   */
  lemma BystanderKeeps(w: World, tx: Tx, t: EthAddress, a: EthAddress)
    requires Inv(w) && a != tx.sender && a != w.self
    requires t in w.tokens ==> AllowsNothing(w.tokens[t], a)
    ensures Held(w, t, a) <= Held(Step(w, tx), t, a)
  {
    if CanSend(w, tx) && Escrow.Exec(w, tx).Some? {
      match tx.call
      case Lock(msgValue, recipient, token, amount) => TakeFundsPays(w, tx.sender, msgValue, token, amount);
      case Unlock(id) => CompletePays(w, id);
      case Withdraw(id) => CompletePays(w, id);
      case PauseLocking =>
      case ActivateLocking =>
      case _ => OutsideBystander(w, tx, t, a);
    }
  }

  // ---------------------------------------------------------------- ether is neither created nor lost

  lemma PayEtherConserves(ether: Ether, from: EthAddress, to: EthAddress, amount: nat)
    requires PayEther(ether, from, to, amount).Some?
    ensures MapSum(PayEther(ether, from, to, amount).value) == MapSum(ether)
  {
    var before: map<EthAddress, int> := ether;
    var rest := Lookup(before, from) - amount;
    var less := before[from := rest];
    SumUpdate(before, from, rest);
    SumUpdate(less, to, Lookup(less, to) + amount);
    assert less[to := Lookup(less, to) + amount] == PayEther(ether, from, to, amount).value;
  }

  lemma StepConservesEther(w: World, tx: Tx)
    ensures MapSum(Step(w, tx).ether) == MapSum(w.ether)
  {
    if Step(w, tx).ether != w.ether {
      match tx.call
      case Lock(msgValue, recipient, token, amount) => PayEtherConserves(w.ether, tx.sender, w.self, msgValue);
      case Unlock(id) => SendConservesEther(w, id);
      case Withdraw(id) => SendConservesEther(w, id);
      case SendEther(to, amount) => PayEtherConserves(w.ether, tx.sender, to, amount);
      case ForceEther(to, amount) => PayEtherConserves(w.ether, tx.sender, to, amount);
      case _ =>
    }
  }

  lemma SendConservesEther(w: World, id: Hash)
    ensures Complete(w, id).Some? ==> MapSum(Complete(w, id).value.ether) == MapSum(w.ether)
  {
    var item := ItemOf(w.items, id);
    if PayEther(w.ether, w.self, item.sender, item.amount).Some? {
      PayEtherConserves(w.ether, w.self, item.sender, item.amount);
    }
  }

  /** On every run all accounts together, Peggy included, hold the ether that there was at the start. */
  lemma {:induction false} EtherConserved(w: World, txs: seq<Tx>)
    ensures MapSum(Run(w, txs).ether) == MapSum(w.ether)
  {
    if txs != [] {
      EtherConserved(w, txs[..|txs| - 1]);
      StepConservesEther(Run(w, txs[..|txs| - 1]), txs[|txs| - 1]);
    }
  }

  // ---------------------------------------------------------------- pausing

  /** The relayer's pause clears the flag of an active contract, with its event, and does nothing to a paused one. */
  lemma PauseExactly(w: World)
    requires w.relayer != ZERO_ADDRESS && w.relayer != w.self
    ensures Step(w, Tx(w.relayer, PauseLocking)) ==
              if w.active then w.(active := false, log := w.log + [LogLockingPaused]) else w
  {
  }

  lemma ActivateExactly(w: World)
    requires w.relayer != ZERO_ADDRESS && w.relayer != w.self
    ensures Step(w, Tx(w.relayer, ActivateLocking)) ==
              if w.active then w else w.(active := true, log := w.log + [LogLockingActivated])
  {
  }

  /** Both calls revert for everyone else, and in the state they are for. */
  lemma PausingRevertsExactly(w: World, sender: EthAddress)
    ensures Escrow.Exec(w, Tx(sender, PauseLocking)).None? <==> sender != w.relayer || !w.active
    ensures Escrow.Exec(w, Tx(sender, ActivateLocking)).None? <==> sender != w.relayer || w.active
  {
  }

  /** The flag that an observer of the events would have. */
  function FlagAfter(log: seq<LogEvent>): bool {
    if log == [] then false
    else match Last(log)
      case LogLockingPaused => false
      case LogLockingActivated => true
      case _ => FlagAfter(Before(log))
  }

  lemma LockKeepsFlag(
    w: World, sender: EthAddress, msgValue: uint256, recipient: Bytes, token: EthAddress, amount: uint256)
    requires Inv(w) && sender != ZERO_ADDRESS && sender != w.self
    ensures
      ExecLock(w, sender, msgValue, recipient, token, amount).Some? ==>
        var w' := ExecLock(w, sender, msgValue, recipient, token, amount).value;
        w'.active == w.active && FlagAfter(w'.log) == FlagAfter(w.log)
  {
    if ExecLock(w, sender, msgValue, recipient, token, amount).Some? {
      LockEffect(w, sender, msgValue, recipient, token, amount, token);
      TakeFundsEffect(w, sender, msgValue, token, amount, token);
      LogGrows(w.log, Last(ExecLock(w, sender, msgValue, recipient, token, amount).value.log));
    }
  }

  lemma ReleaseKeepsFlag(w: World, id: Hash, e: LogEvent)
    requires Inv(w) && IsRelease(e)
    ensures
      Complete(w, id).Some? ==>
        var w' := Released(Complete(w, id).value, e);
        && w'.active == w.active && FlagAfter(w'.log) == FlagAfter(w.log)
        && w'.items.Keys == w.items.Keys && w'.nonce == w.nonce
  {
    if Complete(w, id).Some? {
      CompleteEffect(w, id, ZERO_ADDRESS);
      LogGrows(w.log, e);
    }
  }

  predicate Pauses(call: Call) {
    call.PauseLocking? || call.ActivateLocking?
  }

  lemma OtherCallsKeepFlag(w: World, tx: Tx)
    requires Inv(w) && CanSend(w, tx) && CallsPeggy(tx.call) && !Pauses(tx.call) && Escrow.Exec(w, tx).Some?
    ensures
      var w' := Escrow.Exec(w, tx).value;
      w'.active == w.active && FlagAfter(w'.log) == FlagAfter(w.log)
  {
    match tx.call
    case Lock(msgValue, recipient, token, amount) =>
      LockKeepsFlag(w, tx.sender, msgValue, recipient, token, amount);
    case Unlock(id) => ReleaseKeepsFlag(w, id, UnlockEvent(w, id));
    case Withdraw(id) => ReleaseKeepsFlag(w, id, WithdrawEvent(w, id));
  }

  lemma SetActiveFollowsFlag(w: World, sender: EthAddress, active: bool)
    ensures ExecSetActive(w, sender, active).Some? ==>
              var w' := ExecSetActive(w, sender, active).value;
              w'.active == FlagAfter(w'.log)
  {
    LogGrows(w.log, if active then LogLockingActivated else LogLockingPaused);
  }

  lemma StepFollowsFlag(w: World, tx: Tx)
    requires Inv(w) && w.active == FlagAfter(w.log)
    ensures Step(w, tx).active == FlagAfter(Step(w, tx).log)
  {
    if CanSend(w, tx) && Escrow.Exec(w, tx).Some? {
      if Pauses(tx.call) {
        SetActiveFollowsFlag(w, tx.sender, tx.call.ActivateLocking?);
      } else if CallsPeggy(tx.call) {
        OtherCallsKeepFlag(w, tx);
      } else {
        OutsideEffect(w, tx, ZERO_ADDRESS);
      }
    }
  }

  /** On every run the contract is active exactly if the last of its two pausing events is an activation. */
  lemma {:induction false} FlagFollowsLog(w: World, txs: seq<Tx>)
    requires Start(w)
    ensures Run(w, txs).active == FlagAfter(Run(w, txs).log)
  {
    if txs != [] {
      StartInv(w);
      RunKeepsInv(w, txs[..|txs| - 1]);
      FlagFollowsLog(w, txs[..|txs| - 1]);
      StepFollowsFlag(Run(w, txs[..|txs| - 1]), txs[|txs| - 1]);
    }
  }

  /** Once paused, until the relayer activates again, no lock succeeds and no item is added, whatever else happens. */
  lemma {:induction false} PausedUntilActivated(w: World, txs: seq<Tx>)
    requires Inv(w) && !w.active && forall tx :: tx in txs ==> tx != Tx(w.relayer, ActivateLocking)
    ensures !Run(w, txs).active && Run(w, txs).items.Keys == w.items.Keys && Run(w, txs).nonce == w.nonce
    ensures forall sender, msgValue, recipient, token, amount ::
              ExecLock(Run(w, txs), sender, msgValue, recipient, token, amount) == None
  {
    if txs != [] {
      var front, last := txs[..|txs| - 1], txs[|txs| - 1];
      assert forall tx :: tx in front ==> tx in txs;
      PausedUntilActivated(w, front);
      RunKeepsInv(w, front);
      assert last in txs;
      PausedStep(Run(w, front), last);
    }
  }

  lemma PausedStep(w: World, tx: Tx)
    requires Inv(w) && !w.active && tx != Tx(w.relayer, ActivateLocking)
    ensures !Step(w, tx).active && Step(w, tx).items.Keys == w.items.Keys && Step(w, tx).nonce == w.nonce
  {
    if CanSend(w, tx) && Escrow.Exec(w, tx).Some? {
      if CallsPeggy(tx.call) {
        PausedCall(w, tx);
      } else {
        OutsideEffect(w, tx, ZERO_ADDRESS);
      }
    }
  }

  lemma PausedCall(w: World, tx: Tx)
    requires Inv(w) && !w.active && CallsPeggy(tx.call) && tx != Tx(w.relayer, ActivateLocking)
    requires Escrow.Exec(w, tx).Some?
    ensures
      var w' := Escrow.Exec(w, tx).value;
      !w'.active && w'.items.Keys == w.items.Keys && w'.nonce == w.nonce
  {
    match tx.call
    case Unlock(id) => ReleaseKeepsFlag(w, id, UnlockEvent(w, id));
    case Withdraw(id) => ReleaseKeepsFlag(w, id, WithdrawEvent(w, id));
    case _ =>
  }
}
