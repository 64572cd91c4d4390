/** What holds of every run of transactions around the Peggy contract. */
module EscrowRuns {
  import opened Wrappers
  import opened Addresses
  import opened Sums
  import opened Histories
  import opened Erc20
  import opened ItemKeys
  import opened Escrow

  // ---------------------------------------------------------------- the three kinds of steps

  function LockEvent(id: Hash, item: Item): LogEvent {
    LogLock(id, item.sender, item.recipient, item.token, item.amount, item.nonce)
  }

  predicate IsRelease(e: LogEvent) {
    e.LogUnlock? || e.LogWithdraw?
  }

  /** A release event that pays the item back to its sender. */
  predicate ReleaseOf(e: LogEvent, id: Hash, item: Item) {
    IsRelease(e) && e.id == id && e.receiver == item.sender && e.token == item.token &&
    e.value == item.amount && e.nonce == item.nonce
  }

  ghost predicate Locks(w: World, w': World, id: Hash, item: Item) {
    && id !in w.items && item.locked
    && w'.items == w.items[id := item] && w'.log == w.log + [LockEvent(id, item)]
    && item.nonce == w'.nonce == w.nonce + 1
  }

  ghost predicate Releases(w: World, w': World, id: Hash, e: LogEvent) {
    && id in w.items && w.items[id].locked
    && w'.items == w.items[id := w.items[id].(locked := false)]
    && w'.log == w.log + [e] && ReleaseOf(e, id, w.items[id])
    && w'.nonce == w.nonce
  }

  ghost predicate Quiet(w: World, w': World) {
    && w'.items == w.items && w'.nonce == w.nonce
    && (w'.log == w.log || w'.log == w.log + [LogLockingPaused] || w'.log == w.log + [LogLockingActivated])
  }

  lemma StepKind(w: World, tx: Tx)
    requires Inv(w)
    ensures
      var w' := Step(w, tx);
      || Quiet(w, w')
      || (exists id, item :: Locks(w, w', id, item))
      || (exists id, e :: Releases(w, w', id, e))
  {
    var w' := Step(w, tx);
    if CanSend(w, tx) && Escrow.Exec(w, tx).Some? {
      match tx.call
      case Lock(msgValue, recipient, token, amount) =>
        LockKind(w, tx.sender, msgValue, recipient, token, amount);
      case Unlock(id) => ReleaseKind(w, id, UnlockEvent(w, id));
      case Withdraw(id) => ReleaseKind(w, id, WithdrawEvent(w, id));
      case PauseLocking =>
      case ActivateLocking =>
      case _ => OutsideEffect(w, tx, ZERO_ADDRESS);
    }
  }

  lemma LockKind(w: World, sender: EthAddress, msgValue: uint256, recipient: Bytes, token: EthAddress, amount: uint256)
    requires Inv(w) && sender != ZERO_ADDRESS && sender != w.self
    requires ExecLock(w, sender, msgValue, recipient, token, amount).Some?
    ensures exists id, item :: Locks(w, ExecLock(w, sender, msgValue, recipient, token, amount).value, id, item)
  {
    LockEffect(w, sender, msgValue, recipient, token, amount, token);
    assert Locks(w, ExecLock(w, sender, msgValue, recipient, token, amount).value,
                 ItemKey(sender, recipient, token, amount, w.nonce + 1),
                 Item(sender, recipient, token, amount, w.nonce + 1, true));
  }

  lemma ReleaseKind(w: World, id: Hash, e: LogEvent)
    requires Inv(w) && Complete(w, id).Some? && ReleaseOf(e, id, ItemOf(w.items, id))
    ensures Releases(w, Released(Complete(w, id).value, e), id, e)
  {
    CompleteEffect(w, id, ZERO_ADDRESS);
  }

  // ---------------------------------------------------------------- solvency

  /** What a locked item owes in a token, to one depositor or to all. */
  function Owes(item: Item, who: Option<EthAddress>, token: EthAddress): nat {
    if item.locked && item.token == token && (who == None || who == Some(item.sender)) then item.amount else 0
  }

  function OwedMap(items: Items, who: Option<EthAddress>, token: EthAddress): map<Hash, int> {
    map id | id in items :: Owes(items[id], who, token)
  }

  /** The sum of the locked items in a token. */
  ghost function Owed(items: Items, who: Option<EthAddress>, token: EthAddress): int {
    MapSum(OwedMap(items, who, token))
  }

  lemma OwedUpdate(items: Items, id: Hash, item: Item, who: Option<EthAddress>, token: EthAddress)
    ensures Owed(items[id := item], who, token) ==
              Owed(items, who, token) - Owes(ItemOf(items, id), who, token) + Owes(item, who, token)
  {
    assert OwedMap(items[id := item], who, token) == OwedMap(items, who, token)[id := Owes(item, who, token)];
    SumUpdate(OwedMap(items, who, token), id, Owes(item, who, token));
  }

  /** What a transaction that does not call Peggy adds to Peggy's balance. */
  function Donation(w: World, tx: Tx, token: EthAddress): int {
    if CallsPeggy(tx.call) then 0 else Balance(Step(w, tx), token) - Balance(w, token)
  }

  function Donated(w: World, txs: seq<Tx>, token: EthAddress): int {
    if txs == [] then 0
    else
      Donated(w, txs[..|txs| - 1], token) + Donation(Run(w, txs[..|txs| - 1]), txs[|txs| - 1], token)
  }

  lemma StepSolvency(w: World, tx: Tx, token: EthAddress)
    requires Inv(w)
    ensures
      var w' := Step(w, tx);
      && Balance(w', token) - Balance(w, token) ==
           Owed(w'.items, None, token) - Owed(w.items, None, token) + Donation(w, tx, token)
      && 0 <= Donation(w, tx, token)
  {
    if CanSend(w, tx) && Escrow.Exec(w, tx).Some? {
      if CallsPeggy(tx.call) {
        PeggySolvency(w, tx, token);
      } else {
        OutsideEffect(w, tx, token);
      }
    }
  }

  lemma PeggySolvency(w: World, tx: Tx, token: EthAddress)
    requires Inv(w) && CanSend(w, tx) && CallsPeggy(tx.call) && Escrow.Exec(w, tx).Some?
    ensures
      var w' := Escrow.Exec(w, tx).value;
      Balance(w', token) - Balance(w, token) == Owed(w'.items, None, token) - Owed(w.items, None, token)
  {
    match tx.call
    case Lock(msgValue, recipient, t, amount) =>
      LockSolvency(w, tx.sender, msgValue, recipient, t, amount, token);
    case Unlock(id) => ReleaseSolvency(w, id, UnlockEvent(w, id), token);
    case Withdraw(id) => ReleaseSolvency(w, id, WithdrawEvent(w, id), token);
    case _ =>
  }

  lemma LockSolvency(
    w: World, sender: EthAddress, msgValue: uint256, recipient: Bytes, t: EthAddress, amount: uint256,
    token: EthAddress)
    requires Inv(w) && sender != ZERO_ADDRESS && sender != w.self
    requires ExecLock(w, sender, msgValue, recipient, t, amount).Some?
    ensures
      var w' := ExecLock(w, sender, msgValue, recipient, t, amount).value;
      Balance(w', token) - Balance(w, token) == Owed(w'.items, None, token) - Owed(w.items, None, token)
  {
    LockEffect(w, sender, msgValue, recipient, t, amount, token);
    OwedUpdate(w.items, ItemKey(sender, recipient, t, amount, w.nonce + 1),
               Item(sender, recipient, t, amount, w.nonce + 1, true), None, token);
  }

  lemma ReleaseSolvency(w: World, id: Hash, e: LogEvent, token: EthAddress)
    requires Inv(w)
    ensures
      Complete(w, id).Some? ==>
        var w' := Released(Complete(w, id).value, e);
        Balance(w', token) - Balance(w, token) == Owed(w'.items, None, token) - Owed(w.items, None, token)
  {
    if Complete(w, id).Some? {
      CompleteEffect(w, id, token);
      OwedUpdate(w.items, id, w.items[id].(locked := false), None, token);
    }
  }

  /**
   On every run, for ether and each token, Peggy's balance is exactly its locked items plus what it held at the
   start and was donated since.
   */
  lemma {:induction false} Solvency(w: World, txs: seq<Tx>, token: EthAddress)
    requires Start(w)
    ensures Inv(Run(w, txs))
    ensures Balance(Run(w, txs), token) ==
              Owed(Run(w, txs).items, None, token) + Balance(w, token) + Donated(w, txs, token)
    ensures 0 <= Donated(w, txs, token) && 0 <= Balance(w, token)
  {
    if txs == [] {
      assert OwedMap(w.items, None, token) == map[];
    } else {
      Solvency(w, txs[..|txs| - 1], token);
      StepSolvency(Run(w, txs[..|txs| - 1]), txs[|txs| - 1], token);
      StepKeepsInv(Run(w, txs[..|txs| - 1]), txs[|txs| - 1]);
    }
  }

  lemma ItemIsOwed(items: Items, id: Hash)
    requires id in items && items[id].locked
    ensures items[id].amount <= Owed(items, None, items[id].token)
    ensures Owed(items[id := items[id].(locked := false)], None, items[id].token) ==
              Owed(items, None, items[id].token) - items[id].amount
  {
    EntryLeqSum(OwedMap(items, None, items[id].token), id);
    OwedUpdate(items, id, items[id].(locked := false), None, items[id].token);
  }

  /** What Peggy owes in an item's token once the item's lock is cleared. */
  ghost function OwedAfterClearing(w: World, id: Hash): int {
    Owed(Cleared(w, id).items, None, ItemOf(w.items, id).token)
  }

  /**
   On every run a release reaches its outgoing transfer with the lock already cleared; the transfer succeeds, and both
   before and after it the balance covers all items still locked.
   */
  lemma CoveredAtTransfer(w: World, txs: seq<Tx>, id: Hash)
    requires Start(w)
    requires id in Run(w, txs).items && Run(w, txs).items[id].locked
    ensures
      var v := Run(w, txs);
      var item := v.items[id];
      var sent := SendFunds(Cleared(v, id), item.sender, item.token, item.amount);
      && !Cleared(v, id).items[id].locked
      && sent.Some? && Complete(v, id) == sent && sent.value.items == Cleared(v, id).items
      && OwedAfterClearing(v, id) + item.amount <= Balance(Cleared(v, id), item.token)
      && OwedAfterClearing(v, id) <= Balance(sent.value, item.token)
  {
    var v := Run(w, txs);
    Solvency(w, txs, v.items[id].token);
    ItemIsOwed(v.items, id);
    CompleteEnabled(v, id);
    CompleteEffect(v, id, v.items[id].token);
  }

  /**
   On every run the delivery guard holds for every locked item: it can only ever stop the release of one already
   released.
   */
  lemma LockedIsDeliverable(w: World, txs: seq<Tx>, id: Hash)
    requires Start(w)
    requires id in Run(w, txs).items && Run(w, txs).items[id].locked
    ensures CanDeliver(Run(w, txs), Run(w, txs).items[id])
  {
    CoveredAtTransfer(w, txs, id);
  }

  lemma WithdrawStep(w: World, id: Hash)
    requires id in w.items && Complete(w, id).Some?
    requires w.items[id].sender != ZERO_ADDRESS && w.items[id].sender != w.self
    ensures
      var item := w.items[id];
      Step(w, Tx(item.sender, Withdraw(id))) == Released(Complete(w, id).value, WithdrawEvent(w, id))
  {
  }

  lemma CompleteEnabled(w: World, id: Hash)
    requires Inv(w) && id in w.items && w.items[id].locked
    requires w.items[id].amount <= Balance(w, w.items[id].token)
    ensures w.items[id].sender != ZERO_ADDRESS && w.items[id].sender != w.self
    ensures Complete(w, id).Some?
    ensures
      var item, w' := w.items[id], Complete(w, id).value;
      && w' == Cleared(w, id).(ether := w'.ether, tokens := w'.tokens)
      && Held(w', item.token, item.sender) == Held(w, item.token, item.sender) + item.amount
  {
    var item := w.items[id];
    assert ItemInv(w.self, w.nonce, w.tokens.Keys, id, item);
    if item.token != ZERO_ADDRESS {
      MoveSucceedsExactly(w.tokens[item.token], w.self, item.sender, item.amount);
    } else {
      PayEtherEffect(w.ether, w.self, item.sender, item.amount, item.sender);
    }
  }

  /**
   In a reachable world a release succeeds exactly for a locked item and the right caller: the relayer to unlock,
   the original sender to withdraw.
   */
  lemma ReleaseSucceedsExactly(w: World, txs: seq<Tx>, sender: EthAddress, id: Hash)
    requires Start(w)
    ensures
      var v := Run(w, txs);
      var locked := id in v.items && v.items[id].locked;
      && (ExecUnlock(v, sender, id).Some? <==> sender == w.relayer && locked)
      && (ExecWithdraw(v, sender, id).Some? <==> locked && sender == v.items[id].sender)
  {
    var v := Run(w, txs);
    StartInv(w);
    RunKeepsInv(w, txs);
    if id in v.items && v.items[id].locked {
      Solvency(w, txs, v.items[id].token);
      ItemIsOwed(v.items, id);
      CompleteEnabled(v, id);
    }
  }

  lemma StartInv(w: World)
    requires Start(w)
    ensures Inv(w)
  {
  }

  /**
   A lock succeeds exactly while locking is active and a nonce is left, with ether of the stated amount or enough
   approved tokens.
   */
  lemma LockSucceedsExactly(
    w: World, txs: seq<Tx>, sender: EthAddress, msgValue: uint256, recipient: Bytes, token: EthAddress, amount: uint256)
    requires Start(w) && sender != w.self
    ensures
      var v := Run(w, txs);
      ExecLock(v, sender, msgValue, recipient, token, amount).Some? <==>
        && v.active && v.nonce + 1 < TWO_256
        && if msgValue != 0 then token == ZERO_ADDRESS && amount == msgValue && amount <= Held(v, token, sender)
           else
             && token in v.tokens && amount <= v.tokens[token].Allowance(sender, v.self)
             && amount <= Held(v, token, sender)
  {
    var v := Run(w, txs);
    StartInv(w);
    RunKeepsInv(w, txs);
    NonceAvailableExactly(v.nonce);
    TakeFundsSucceedsExactly(v, sender, msgValue, token, amount);
  }

  lemma TakeFundsSucceedsExactly(w: World, sender: EthAddress, msgValue: uint256, token: EthAddress, amount: uint256)
    requires Inv(w) && sender != w.self
    ensures
      TakeFunds(w, sender, msgValue, token, amount).Some? <==>
        if msgValue != 0 then token == ZERO_ADDRESS && amount == msgValue && amount <= Held(w, token, sender)
        else
          && token in w.tokens && amount <= w.tokens[token].Allowance(sender, w.self)
          && amount <= Held(w, token, sender)
  {
    if token in w.tokens && amount <= w.tokens[token].Allowance(sender, w.self) {
      MoveSucceedsExactly(Spend(w.tokens[token], sender, w.self, amount).value, sender, w.self, amount);
    }
  }

  /** Only the relayer changes the active flag. */
  lemma OnlyRelayerPauses(w: World, tx: Tx)
    requires Inv(w) && Step(w, tx).active != w.active
    ensures tx.sender == w.relayer && tx.call == if w.active then PauseLocking else ActivateLocking
  {
    if CanSend(w, tx) && Escrow.Exec(w, tx).Some? {
      match tx.call
      case Lock(msgValue, recipient, token, amount) =>
        TakeFundsEffect(w, tx.sender, msgValue, token, amount, token);
      case Unlock(id) => CompleteEffect(w, id, ZERO_ADDRESS);
      case Withdraw(id) => CompleteEffect(w, id, ZERO_ADDRESS);
      case PauseLocking =>
      case ActivateLocking =>
      case _ => OutsideEffect(w, tx, ZERO_ADDRESS);
    }
  }

  /** An account's balance in a token, or in ether for the zero address. */
  function Held(w: World, token: EthAddress, a: EthAddress): int {
    if token == ZERO_ADDRESS then EtherOf(w.ether, a)
    else if token in w.tokens then w.tokens[token].BalanceOf(a)
    else 0
  }

  // ---------------------------------------------------------------- the log

  function Deposited(log: seq<LogEvent>, who: EthAddress, token: EthAddress): nat {
    if log == [] then 0
    else
      var e := Last(log);
      Deposited(Before(log), who, token) + if e.LogLock? && e.from == who && e.token == token then e.value else 0
  }

  function Returned(log: seq<LogEvent>, who: EthAddress, token: EthAddress): nat {
    if log == [] then 0
    else
      var e := Last(log);
      Returned(Before(log), who, token) + if IsRelease(e) && e.receiver == who && e.token == token then e.value else 0
  }

  /** The items that an observer of the events would have. */
  function Replay(log: seq<LogEvent>): Items {
    if log == [] then map[]
    else
      var items := Replay(Before(log));
      match Last(log)
      case LogLock(id, from, to, token, value, nonce) => items[id := Item(from, to, token, value, nonce, true)]
      case LogUnlock(id, _, _, _, _) => items[id := ItemOf(items, id).(locked := false)]
      case LogWithdraw(id, _, _, _, _) => items[id := ItemOf(items, id).(locked := false)]
      case _ => items
  }

  function LockNonces(log: seq<LogEvent>): seq<int> {
    if log == [] then []
    else LockNonces(Before(log)) + if Last(log).LogLock? then [Last(log).nonce] else []
  }

  function ReleaseCount(log: seq<LogEvent>, id: Hash): nat {
    if log == [] then 0
    else ReleaseCount(Before(log), id) + if IsRelease(Last(log)) && Last(log).id == id then 1 else 0
  }

  lemma LogGrows(log: seq<LogEvent>, e: LogEvent)
    ensures Before(log + [e]) == log && Last(log + [e]) == e
  {
  }

  /** For each depositor and token: deposited = still locked + returned. */
  lemma {:induction false} DepositsAccounted(w: World, txs: seq<Tx>, who: EthAddress, token: EthAddress)
    requires Start(w)
    ensures var v := Run(w, txs);
            Deposited(v.log, who, token) == Owed(v.items, Some(who), token) + Returned(v.log, who, token)
  {
    if txs == [] {
      assert OwedMap(w.items, Some(who), token) == map[];
      assert Before(w.log) == [];
    } else {
      var u := Run(w, txs[..|txs| - 1]);
      DepositsAccounted(w, txs[..|txs| - 1], who, token);
      RunKeepsInv(w, txs[..|txs| - 1]);
      StepKind(u, txs[|txs| - 1]);
      StepAccounted(u, Run(w, txs), who, token);
    }
  }

  lemma StepAccounted(w: World, w': World, who: EthAddress, token: EthAddress)
    requires
      || Quiet(w, w')
      || (exists id, item :: Locks(w, w', id, item))
      || (exists id, e :: Releases(w, w', id, e))
    ensures Deposited(w'.log, who, token) - Owed(w'.items, Some(who), token) - Returned(w'.log, who, token) ==
              Deposited(w.log, who, token) - Owed(w.items, Some(who), token) - Returned(w.log, who, token)
  {
    if Quiet(w, w') {
      if w'.log != w.log {
        LogGrows(w.log, Last(w'.log));
      }
    } else if id, item :| Locks(w, w', id, item) {
      LogGrows(w.log, LockEvent(id, item));
      OwedUpdate(w.items, id, item, Some(who), token);
    } else {
      var id, e :| Releases(w, w', id, e);
      ReleaseAccounted(w, w', id, e, who, token);
    }
  }

  lemma ReleaseAccounted(w: World, w': World, id: Hash, e: LogEvent, who: EthAddress, token: EthAddress)
    requires Releases(w, w', id, e)
    ensures Deposited(w'.log, who, token) == Deposited(w.log, who, token)
    ensures Owed(w'.items, Some(who), token) + Returned(w'.log, who, token) ==
              Owed(w.items, Some(who), token) + Returned(w.log, who, token)
  {
    LogGrows(w.log, e);
    OwedUpdate(w.items, id, w.items[id].(locked := false), Some(who), token);
  }

  ghost predicate CountsMatch(items: Items, log: seq<LogEvent>) {
    forall id :: ReleaseCount(log, id) == if id in items && !items[id].locked then 1 else 0
  }

  /** Every release was preceded by the lock of the same item, and pays its sender, token, amount and nonce. */
  ghost predicate ReleasesFollowLocks(log: seq<LogEvent>) {
    forall k :: 0 <= k < |log| && IsRelease(log[k]) ==> exists j :: 0 <= j < k && Undoes(log[k], log[j])
  }

  predicate Undoes(release: LogEvent, lock: LogEvent) {
    IsRelease(release) && lock.LogLock? && release.id == lock.id && release.receiver == lock.from &&
    release.token == lock.token && release.value == lock.value && release.nonce == lock.nonce
  }

  ghost predicate ItemsLogged(items: Items, log: seq<LogEvent>) {
    forall id :: id in items ==> exists j :: 0 <= j < |log| && log[j] == LockEvent(id, items[id])
  }

  ghost predicate LogInv(w: World) {
    && Replay(w.log) == w.items
    && |LockNonces(w.log)| == w.nonce
    && (forall i :: 0 <= i < w.nonce ==> LockNonces(w.log)[i] == i + 1)
    && CountsMatch(w.items, w.log)
    && ReleasesFollowLocks(w.log)
    && ItemsLogged(w.items, w.log)
  }

  /**
   The event log determines the state: replaying it gives exactly the items with their lock flags, the lock
   events carry the nonces 1, 2, 3 and so on, and each item is released at most once, after its lock, to its sender.
   */
  lemma {:induction false} LogRefinesState(w: World, txs: seq<Tx>)
    requires Start(w)
    ensures LogInv(Run(w, txs))
  {
    if txs == [] {
      StartLogged(w);
    } else {
      var u := Run(w, txs[..|txs| - 1]);
      LogRefinesState(w, txs[..|txs| - 1]);
      RunKeepsInv(w, txs[..|txs| - 1]);
      StepKind(u, txs[|txs| - 1]);
      StepKeepsLogInv(u, Run(w, txs));
    }
  }

  lemma StartLogged(w: World)
    requires Start(w)
    ensures LogInv(w)
  {
    LogGrows([], LogLockingActivated);
    assert w.log == [] + [LogLockingActivated];
    assert forall id :: ReleaseCount(w.log, id) == 0;
  }

  lemma StepKeepsLogInv(w: World, w': World)
    requires LogInv(w)
    requires
      || Quiet(w, w')
      || (exists id, item :: Locks(w, w', id, item))
      || (exists id, e :: Releases(w, w', id, e))
    ensures LogInv(w')
  {
    if w'.log != w.log {
      LogGrows(w.log, Last(w'.log));
    }
    if Quiet(w, w') {
      QuietKeepsEvidence(w, w');
    } else if id, item :| Locks(w, w', id, item) {
      LockKeepsEvidence(w, w', id, item);
    } else {
      var id, e :| Releases(w, w', id, e);
      ReleaseKeepsEvidence(w, w', id, e);
    }
  }

  lemma ExtendReleases(log: seq<LogEvent>, e: LogEvent)
    requires ReleasesFollowLocks(log)
    requires IsRelease(e) ==> exists j :: 0 <= j < |log| && Undoes(e, log[j])
    ensures ReleasesFollowLocks(log + [e])
  {
    var log' := log + [e];
    forall k | 0 <= k < |log'| && IsRelease(log'[k])
      ensures exists j :: 0 <= j < k && Undoes(log'[k], log'[j])
    {
      if k < |log| {
        var j :| 0 <= j < k && Undoes(log[k], log[j]);
        assert Undoes(log'[k], log'[j]);
      } else {
        var j :| 0 <= j < |log| && Undoes(e, log[j]);
        assert Undoes(log'[k], log'[j]);
      }
    }
  }

  lemma ExtendLogged(items: Items, log: seq<LogEvent>, e: LogEvent)
    requires ItemsLogged(items, log)
    ensures ItemsLogged(items, log + [e])
  {
    forall id | id in items
      ensures exists j :: 0 <= j < |log + [e]| && (log + [e])[j] == LockEvent(id, items[id])
    {
      var j :| 0 <= j < |log| && log[j] == LockEvent(id, items[id]);
      assert (log + [e])[j] == LockEvent(id, items[id]);
    }
  }

  lemma QuietKeepsEvidence(w: World, w': World)
    requires LogInv(w) && Quiet(w, w')
    ensures LogInv(w')
  {
    if w'.log != w.log {
      LogGrows(w.log, Last(w'.log));
      ExtendReleases(w.log, Last(w'.log));
      ExtendLogged(w.items, w.log, Last(w'.log));
      assert forall id :: ReleaseCount(w'.log, id) == ReleaseCount(w.log, id);
    }
  }

  lemma LockKeepsEvidence(w: World, w': World, id: Hash, item: Item)
    requires LogInv(w) && Locks(w, w', id, item)
    ensures LogInv(w')
  {
    LogGrows(w.log, LockEvent(id, item));
    ExtendReleases(w.log, LockEvent(id, item));
    ExtendLogged(w.items, w.log, LockEvent(id, item));
    forall k | k in w'.items
      ensures exists j :: 0 <= j < |w'.log| && w'.log[j] == LockEvent(k, w'.items[k])
    {
      if k == id {
        assert w'.log[|w.log|] == LockEvent(k, w'.items[k]);
      } else {
        assert k in w.items;
      }
    }
    assert forall k :: ReleaseCount(w'.log, k) == ReleaseCount(w.log, k);
  }

  lemma ClearedStayLogged(items: Items, log: seq<LogEvent>, id: Hash)
    requires ItemsLogged(items, log) && id in items
    ensures ItemsLogged(items[id := items[id].(locked := false)], log)
  {
    var items' := items[id := items[id].(locked := false)];
    forall k | k in items'
      ensures exists i :: 0 <= i < |log| && log[i] == LockEvent(k, items'[k])
    {
      assert LockEvent(k, items'[k]) == LockEvent(k, items[k]);
    }
  }

  lemma ReleaseCounted(items: Items, log: seq<LogEvent>, id: Hash, e: LogEvent)
    requires CountsMatch(items, log) && id in items && items[id].locked && IsRelease(e) && e.id == id
    ensures CountsMatch(items[id := items[id].(locked := false)], log + [e])
  {
    LogGrows(log, e);
    assert forall k :: ReleaseCount(log + [e], k) == ReleaseCount(log, k) + if k == id then 1 else 0;
  }

  lemma ReleaseKeepsEvidence(w: World, w': World, id: Hash, e: LogEvent)
    requires LogInv(w) && Releases(w, w', id, e)
    ensures LogInv(w')
  {
    LogGrows(w.log, e);
    var j :| 0 <= j < |w.log| && w.log[j] == LockEvent(id, w.items[id]);
    assert Undoes(e, w.log[j]);
    ExtendReleases(w.log, e);
    ExtendLogged(w.items, w.log, e);
    ClearedStayLogged(w.items, w'.log, id);
    ReleaseCounted(w.items, w.log, id, e);
  }

  /**
   Items are never overwritten: every field but the lock flag is fixed for ever, and the flag only goes from locked
   to released.
   */
  lemma {:induction false} ItemsNeverChange(w: World, txs: seq<Tx>, id: Hash, k: nat)
    requires Start(w) && k <= |txs| && id in Run(w, txs[..k]).items
    ensures id in Run(w, txs).items
    ensures
      var before, after := Run(w, txs[..k]).items[id], Run(w, txs).items[id];
      after == before || (before.locked && after == before.(locked := false))
    decreases |txs|
  {
    if k == |txs| {
      assert txs[..k] == txs;
    } else {
      var front := txs[..|txs| - 1];
      assert front[..k] == txs[..k];
      ItemsNeverChange(w, front, id, k);
      RunKeepsInv(w, front);
      StepKind(Run(w, front), txs[|txs| - 1]);
    }
  }

  // ---------------------------------------------------------------- lock nonces

  ghost predicate NoncesIncrease(log: seq<LogEvent>, nonce: uint256) {
    && (forall k :: 0 <= k < |log| && log[k].LogLock? ==> 0 < log[k].nonce <= nonce)
    && (forall j, k :: 0 <= j < k < |log| && log[j].LogLock? && log[k].LogLock? ==> log[j].nonce < log[k].nonce)
  }

  /** On every run the lock events carry strictly increasing nonces, so no two of them share one. */
  lemma {:induction false} LockNoncesIncrease(w: World, txs: seq<Tx>)
    requires Start(w)
    ensures NoncesIncrease(Run(w, txs).log, Run(w, txs).nonce)
  {
    if txs != [] {
      var u := Run(w, txs[..|txs| - 1]);
      LockNoncesIncrease(w, txs[..|txs| - 1]);
      Solvency(w, txs[..|txs| - 1], ZERO_ADDRESS);
      StepKind(u, txs[|txs| - 1]);
    }
  }

  // ---------------------------------------------------------------- what a lock event says about its item

  ghost predicate LocksRecorded(items: Items, log: seq<LogEvent>) {
    forall k :: 0 <= k < |log| && log[k].LogLock? ==>
      log[k].id in items && LockEvent(log[k].id, items[log[k].id]) == log[k]
  }

  lemma {:induction false} LocksAreRecorded(w: World, txs: seq<Tx>)
    requires Start(w)
    ensures LocksRecorded(Run(w, txs).items, Run(w, txs).log)
  {
    if txs != [] {
      var u := Run(w, txs[..|txs| - 1]);
      LocksAreRecorded(w, txs[..|txs| - 1]);
      RunKeepsInv(w, txs[..|txs| - 1]);
      StepKind(u, txs[|txs| - 1]);
    }
  }

  /**
   On every run the item of a lock event has that event's fields, and is locked exactly while no release of it was
   logged.
   */
  lemma LockedExactly(w: World, txs: seq<Tx>, k: nat)
    requires Start(w) && k < |Run(w, txs).log| && Run(w, txs).log[k].LogLock?
    ensures
      var v := Run(w, txs);
      var e := v.log[k];
      e.id in v.items &&
      v.items[e.id] == Item(e.from, e.to, e.token, e.value, e.nonce, ReleaseCount(v.log, e.id) == 0)
  {
    LocksAreRecorded(w, txs);
    LogRefinesState(w, txs);
  }

  /** No two lock events concern the same item. */
  lemma LockIdsDistinct(w: World, txs: seq<Tx>, j: nat, k: nat)
    requires Start(w) && j < |Run(w, txs).log| && k < |Run(w, txs).log|
    requires Run(w, txs).log[j].LogLock? && Run(w, txs).log[k].LogLock?
    requires Run(w, txs).log[j].id == Run(w, txs).log[k].id
    ensures j == k
  {
    LocksAreRecorded(w, txs);
    LockNoncesIncrease(w, txs);
  }

  /** The log only grows. */
  lemma StepExtendsLog(w: World, tx: Tx)
    ensures w.log <= Step(w, tx).log
  {
    match tx.call
    case Lock(msgValue, recipient, token, amount) =>
      LockExtendsLog(w, tx.sender, msgValue, recipient, token, amount);
    case Unlock(id) => CompleteKeepsLog(w, id);
    case Withdraw(id) => CompleteKeepsLog(w, id);
    case _ =>
  }

  lemma LockExtendsLog(
    w: World, sender: EthAddress, msgValue: uint256, recipient: Bytes, token: EthAddress, amount: uint256)
    ensures ExecLock(w, sender, msgValue, recipient, token, amount).Some? ==>
              w.log <= ExecLock(w, sender, msgValue, recipient, token, amount).value.log
  {
  }

  lemma CompleteKeepsLog(w: World, id: Hash)
    ensures Complete(w, id).Some? ==> Complete(w, id).value.log == w.log
  {
  }
}
