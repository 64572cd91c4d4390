/** The ERC20 token of cmd/ebrelayer/contract/Peggy.sol: SafeMath, the ledger on values, and the contract. */
module Erc20 {
  import opened Wrappers
  import opened Addresses
  import opened Sums

  const TWO_256: int := 0x1_0000_0000_0000_0000_0000_0000_0000_0000_0000_0000_0000_0000_0000_0000_0000_0000

  type uint256 = n: int | 0 <= n < TWO_256

  // ---------------------------------------------------------------- SafeMath

  function SafeAdd(a: uint256, b: uint256): Option<uint256> {
    var c: uint256 := (a + b) % TWO_256;
    if c >= a then Some(c) else None
  }

  function SafeSub(a: uint256, b: uint256): Option<uint256> {
    if b <= a then Some(a - b) else None
  }

  /** The wrap-around test of SafeMath.add fails exactly when the true sum does not fit. */
  lemma SafeAddExact(a: uint256, b: uint256)
    ensures SafeAdd(a, b).Some? <==> a + b < TWO_256
    ensures SafeAdd(a, b).Some? ==> SafeAdd(a, b).value == a + b
  {
    if a + b < TWO_256 {
      assert (a + b) % TWO_256 == a + b;
    } else {
      assert (a + b) % TWO_256 == a + b - TWO_256;
    }
  }

  // ---------------------------------------------------------------- the ledger on values

  datatype Token = Token(
    balances: map<EthAddress, uint256>,
    allowed: map<(EthAddress, EthAddress), uint256>,
    totalSupply: uint256)
  {
    function BalanceOf(owner: EthAddress): uint256 {
      if owner in balances then balances[owner] else 0
    }

    function SetBalance(owner: EthAddress, value: uint256): Token {
      Token(balances[owner := value], allowed, totalSupply)
    }

    function Allowance(owner: EthAddress, spender: EthAddress): uint256 {
      if (owner, spender) in allowed then allowed[(owner, spender)] else 0
    }
  }

  const NEW_TOKEN := Token(map[], map[], 0)

  datatype TokenCall =
    | Transfer(to: EthAddress, value: uint256)
    | Approve(spender: EthAddress, value: uint256)
    | TransferFrom(from: EthAddress, to: EthAddress, value: uint256)
    | IncreaseAllowance(spender: EthAddress, value: uint256)
    | DecreaseAllowance(spender: EthAddress, value: uint256)
    | Mint(account: EthAddress, value: uint256)
    | Burn(value: uint256)
    | BurnFrom(account: EthAddress, value: uint256)

  function Move(t: Token, from: EthAddress, to: EthAddress, value: uint256): Option<Token> {
    if to == ZERO_ADDRESS then None
    else match SafeSub(t.BalanceOf(from), value)
      case None => None
      case Some(rest) =>
        var t1 := t.SetBalance(from, rest);
        match SafeAdd(t1.BalanceOf(to), value)
        case None => None
        case Some(sum) => Some(t1.SetBalance(to, sum))
  }

  function MintTo(t: Token, account: EthAddress, value: uint256): Option<Token> {
    if account == ZERO_ADDRESS then None
    else match SafeAdd(t.totalSupply, value)
      case None => None
      case Some(supply) =>
        match SafeAdd(t.BalanceOf(account), value)
        case None => None
        case Some(sum) => Some(Token(t.balances[account := sum], t.allowed, supply))
  }

  function BurnOf(t: Token, account: EthAddress, value: uint256): Option<Token> {
    if account == ZERO_ADDRESS then None
    else match SafeSub(t.totalSupply, value)
      case None => None
      case Some(supply) =>
        match SafeSub(t.BalanceOf(account), value)
        case None => None
        case Some(rest) => Some(Token(t.balances[account := rest], t.allowed, supply))
  }

  function SetAllowance(t: Token, owner: EthAddress, spender: EthAddress, value: Option<uint256>): Option<Token> {
    match value
    case None => None
    case Some(v) => Some(Token(t.balances, t.allowed[(owner, spender) := v], t.totalSupply))
  }

  /** Reduce the caller's allowance; None when it is too small. */
  function Spend(t: Token, owner: EthAddress, caller: EthAddress, value: uint256): Option<Token> {
    SetAllowance(t, owner, caller, SafeSub(t.Allowance(owner, caller), value))
  }

  /** One call of the token by `caller`; None is a revert. Minting and burning are open to show the worst case. */
  function Exec(t: Token, caller: EthAddress, call: TokenCall): Option<Token> {
    match call
    case Transfer(to, value) => Move(t, caller, to, value)
    case Approve(spender, value) =>
      if spender == ZERO_ADDRESS then None else SetAllowance(t, caller, spender, Some(value))
    case TransferFrom(from, to, value) =>
      (match Spend(t, from, caller, value)
       case None => None
       case Some(t1) => Move(t1, from, to, value))
    case IncreaseAllowance(spender, value) =>
      if spender == ZERO_ADDRESS then None
      else SetAllowance(t, caller, spender, SafeAdd(t.Allowance(caller, spender), value))
    case DecreaseAllowance(spender, value) =>
      if spender == ZERO_ADDRESS then None
      else SetAllowance(t, caller, spender, SafeSub(t.Allowance(caller, spender), value))
    case Mint(account, value) => MintTo(t, account, value)
    case Burn(value) => BurnOf(t, caller, value)
    case BurnFrom(account, value) =>
      (match Spend(t, account, caller, value)
       case None => None
       case Some(t1) => BurnOf(t1, account, value))
  }

  // ---------------------------------------------------------------- the ledger balances

  ghost predicate Balanced(t: Token) {
    MapSum(t.balances) == t.totalSupply
  }

  lemma MoveKeepsBalanced(t: Token, from: EthAddress, to: EthAddress, value: uint256)
    requires Balanced(t) && Move(t, from, to, value).Some?
    ensures Balanced(Move(t, from, to, value).value)
  {
    var rest := t.BalanceOf(from) - value;
    var b1 := t.balances[from := rest];
    SumUpdate(t.balances, from, rest);
    SafeAddExact(Token(b1, t.allowed, t.totalSupply).BalanceOf(to), value);
    SumUpdate(b1, to, Lookup(b1, to) + value);
  }

  lemma MintKeepsBalanced(t: Token, account: EthAddress, value: uint256)
    requires Balanced(t) && MintTo(t, account, value).Some?
    ensures Balanced(MintTo(t, account, value).value)
  {
    SafeAddExact(t.totalSupply, value);
    SafeAddExact(t.BalanceOf(account), value);
    SumUpdate(t.balances, account, t.BalanceOf(account) + value);
  }

  lemma BurnKeepsBalanced(t: Token, account: EthAddress, value: uint256)
    requires Balanced(t) && BurnOf(t, account, value).Some?
    ensures Balanced(BurnOf(t, account, value).value)
  {
    SumUpdate(t.balances, account, t.BalanceOf(account) - value);
  }

  lemma ExecKeepsBalanced(t: Token, caller: EthAddress, call: TokenCall)
    requires Balanced(t) && Exec(t, caller, call).Some?
    ensures Balanced(Exec(t, caller, call).value)
  {
    match call
    case Transfer(to, value) => MoveKeepsBalanced(t, caller, to, value);
    case TransferFrom(from, to, value) => MoveKeepsBalanced(Spend(t, from, caller, value).value, from, to, value);
    case Mint(account, value) => MintKeepsBalanced(t, account, value);
    case Burn(value) => BurnKeepsBalanced(t, caller, value);
    case BurnFrom(account, value) => BurnKeepsBalanced(Spend(t, account, caller, value).value, account, value);
    case _ =>
  }

  lemma TwoBalances(t: Token, a: EthAddress, b: EthAddress)
    requires Balanced(t)
    ensures 0 <= t.BalanceOf(a) <= t.totalSupply
    ensures a != b ==> t.BalanceOf(a) + t.BalanceOf(b) <= t.totalSupply
  {
    var m: map<EthAddress, int> := t.balances;
    EntryLeqSum(m, a);
    if a in m && a != b {
      SumRemove(m, a);
      EntryLeqSum(m - {a}, b);
    } else {
      EntryLeqSum(m, b);
    }
  }

  /**
   In a balanced ledger a transfer reverts only for the zero address or a short balance: its addition never
   overflows.
   */
  lemma MoveSucceedsExactly(t: Token, from: EthAddress, to: EthAddress, value: uint256)
    requires Balanced(t)
    ensures Move(t, from, to, value).Some? <==> to != ZERO_ADDRESS && value <= t.BalanceOf(from)
    ensures Move(t, from, to, value).Some? ==>
              var t' := Move(t, from, to, value).value;
              && t'.allowed == t.allowed && t'.totalSupply == t.totalSupply
              && (forall a :: a != from && a != to ==> t'.BalanceOf(a) == t.BalanceOf(a))
              && (from != to ==> t'.BalanceOf(from) == t.BalanceOf(from) - value &&
                                 t'.BalanceOf(to) == t.BalanceOf(to) + value)
              && (from == to ==> t'.BalanceOf(from) == t.BalanceOf(from))
  {
    TwoBalances(t, from, to);
    if value <= t.BalanceOf(from) {
      var t1 := t.SetBalance(from, t.BalanceOf(from) - value);
      SafeAddExact(t1.BalanceOf(to), value);
    }
  }

  /** Likewise minting reverts only for the zero address or when the total supply itself would overflow. */
  lemma MintSucceedsExactly(t: Token, account: EthAddress, value: uint256)
    requires Balanced(t)
    ensures MintTo(t, account, value).Some? <==> account != ZERO_ADDRESS && t.totalSupply + value < TWO_256
    ensures MintTo(t, account, value).Some? ==>
              var t' := MintTo(t, account, value).value;
              && t'.allowed == t.allowed
              && (forall a :: t'.BalanceOf(a) == t.BalanceOf(a) + if a == account then value else 0)
  {
    TwoBalances(t, account, account);
    SafeAddExact(t.totalSupply, value);
    SafeAddExact(t.BalanceOf(account), value);
  }

  lemma BurnSucceedsExactly(t: Token, account: EthAddress, value: uint256)
    requires Balanced(t)
    ensures BurnOf(t, account, value).Some? <==> account != ZERO_ADDRESS && value <= t.BalanceOf(account)
    ensures BurnOf(t, account, value).Some? ==>
              var t' := BurnOf(t, account, value).value;
              && t'.allowed == t.allowed
              && (forall a :: t'.BalanceOf(a) == t.BalanceOf(a) - if a == account then value else 0)
  {
    TwoBalances(t, account, account);
  }

  // ---------------------------------------------------------------- what each call does, account by account

  ghost predicate SameBalances(t: Token, t': Token) {
    forall a :: t'.BalanceOf(a) == t.BalanceOf(a)
  }

  ghost predicate SameAllowances(t: Token, t': Token) {
    forall o, s :: t'.Allowance(o, s) == t.Allowance(o, s)
  }

  /** The value moved from one account to the other, and no other balance changed. */
  ghost predicate Moved(t: Token, t': Token, from: EthAddress, to: EthAddress, value: int) {
    forall a ::
      t'.BalanceOf(a) == t.BalanceOf(a) - (if a == from then value else 0) + (if a == to then value else 0)
  }

  /** One allowance has this value now, and no other allowance changed. */
  ghost predicate NowAllowed(t: Token, t': Token, owner: EthAddress, spender: EthAddress, value: int) {
    && t'.Allowance(owner, spender) == value
    && forall o, s :: o != owner || s != spender ==> t'.Allowance(o, s) == t.Allowance(o, s)
  }

  lemma TransferExactly(t: Token, caller: EthAddress, to: EthAddress, value: uint256)
    requires Balanced(t)
    ensures
      var r := Exec(t, caller, Transfer(to, value));
      && (r.Some? <==> to != ZERO_ADDRESS && value <= t.BalanceOf(caller))
      && (r.Some? ==> Moved(t, r.value, caller, to, value) && SameAllowances(t, r.value) &&
                      r.value.totalSupply == t.totalSupply)
  {
    MoveSucceedsExactly(t, caller, to, value);
  }

  lemma ApproveExactly(t: Token, caller: EthAddress, spender: EthAddress, value: uint256)
    ensures
      var r := Exec(t, caller, Approve(spender, value));
      && (r.Some? <==> spender != ZERO_ADDRESS)
      && (r.Some? ==> NowAllowed(t, r.value, caller, spender, value) && SameBalances(t, r.value) &&
                      r.value.totalSupply == t.totalSupply)
  {
  }

  lemma SpendExactly(t: Token, owner: EthAddress, caller: EthAddress, value: uint256)
    ensures
      var r := Spend(t, owner, caller, value);
      && (r.Some? <==> value <= t.Allowance(owner, caller))
      && (r.Some? ==> NowAllowed(t, r.value, owner, caller, t.Allowance(owner, caller) - value) &&
                      r.value.balances == t.balances && r.value.totalSupply == t.totalSupply)
  {
  }

  lemma TransferFromExactly(t: Token, caller: EthAddress, from: EthAddress, to: EthAddress, value: uint256)
    requires Balanced(t)
    ensures
      var r := Exec(t, caller, TransferFrom(from, to, value));
      && (r.Some? <==> to != ZERO_ADDRESS && value <= t.BalanceOf(from) && value <= t.Allowance(from, caller))
      && (r.Some? ==> Moved(t, r.value, from, to, value) && r.value.totalSupply == t.totalSupply &&
                      NowAllowed(t, r.value, from, caller, t.Allowance(from, caller) - value))
  {
    SpendExactly(t, from, caller, value);
    if value <= t.Allowance(from, caller) {
      MoveSucceedsExactly(Spend(t, from, caller, value).value, from, to, value);
    }
  }

  lemma IncreaseAllowanceExactly(t: Token, caller: EthAddress, spender: EthAddress, value: uint256)
    ensures
      var r := Exec(t, caller, IncreaseAllowance(spender, value));
      && (r.Some? <==> spender != ZERO_ADDRESS && t.Allowance(caller, spender) + value < TWO_256)
      && (r.Some? ==> NowAllowed(t, r.value, caller, spender, t.Allowance(caller, spender) + value) &&
                      SameBalances(t, r.value) && r.value.totalSupply == t.totalSupply)
  {
    SafeAddExact(t.Allowance(caller, spender), value);
  }

  lemma DecreaseAllowanceExactly(t: Token, caller: EthAddress, spender: EthAddress, value: uint256)
    ensures
      var r := Exec(t, caller, DecreaseAllowance(spender, value));
      && (r.Some? <==> spender != ZERO_ADDRESS && value <= t.Allowance(caller, spender))
      && (r.Some? ==> NowAllowed(t, r.value, caller, spender, t.Allowance(caller, spender) - value) &&
                      SameBalances(t, r.value) && r.value.totalSupply == t.totalSupply)
  {
  }

  lemma MintExactly(t: Token, caller: EthAddress, account: EthAddress, value: uint256)
    requires Balanced(t)
    ensures
      var r := Exec(t, caller, Mint(account, value));
      && (r.Some? <==> account != ZERO_ADDRESS && t.totalSupply + value < TWO_256)
      && (r.Some? ==> r.value.totalSupply == t.totalSupply + value && SameAllowances(t, r.value) &&
                      forall a :: r.value.BalanceOf(a) == t.BalanceOf(a) + if a == account then value else 0)
  {
    MintSucceedsExactly(t, account, value);
    SafeAddExact(t.totalSupply, value);
  }

  lemma BurnExactly(t: Token, caller: EthAddress, value: uint256)
    requires Balanced(t)
    ensures
      var r := Exec(t, caller, Burn(value));
      && (r.Some? <==> caller != ZERO_ADDRESS && value <= t.BalanceOf(caller))
      && (r.Some? ==> r.value.totalSupply == t.totalSupply - value && SameAllowances(t, r.value) &&
                      forall a :: r.value.BalanceOf(a) == t.BalanceOf(a) - if a == caller then value else 0)
  {
    BurnSucceedsExactly(t, caller, value);
  }

  lemma BurnFromExactly(t: Token, caller: EthAddress, account: EthAddress, value: uint256)
    requires Balanced(t)
    ensures
      var r := Exec(t, caller, BurnFrom(account, value));
      && (r.Some? <==>
            account != ZERO_ADDRESS && value <= t.BalanceOf(account) && value <= t.Allowance(account, caller))
      && (r.Some? ==> r.value.totalSupply == t.totalSupply - value &&
                      NowAllowed(t, r.value, account, caller, t.Allowance(account, caller) - value) &&
                      forall a :: r.value.BalanceOf(a) == t.BalanceOf(a) - if a == account then value else 0)
  {
    SpendExactly(t, account, caller, value);
    if value <= t.Allowance(account, caller) {
      BurnSucceedsExactly(Spend(t, account, caller, value).value, account, value);
    }
  }

  ghost predicate AllowsNothing(t: Token, owner: EthAddress) {
    forall s :: t.Allowance(owner, s) == 0
  }

  lemma AllowsNothingAfter(t: Token, t': Token, owner: EthAddress, key: (EthAddress, EthAddress), value: uint256)
    requires AllowsNothing(t, owner)
    requires t'.allowed == t.allowed || (t'.allowed == t.allowed[key := value] && (key.0 == owner ==> value == 0))
    ensures AllowsNothing(t', owner)
  {
    forall s ensures t'.Allowance(owner, s) == 0 {
      assert t.Allowance(owner, s) == 0;
    }
  }

  /** Which single allowance a successful call may set, and to what. */
  lemma ExecSetsAllowance(
    t: Token, caller: EthAddress, call: TokenCall)
      returns (key: (EthAddress, EthAddress), value: uint256)
    requires Exec(t, caller, call).Some?
    ensures
      var t' := Exec(t, caller, call).value;
      t'.allowed == t.allowed ||
      (t'.allowed == t.allowed[key := value] && (key.0 == caller || value <= t.Allowance(key.0, key.1)))
  {
    key, value := (caller, caller), 0;
    match call
    case Approve(spender, amount) => key, value := (caller, spender), amount;
    case TransferFrom(from, to, amount) => key, value := (from, caller), t.Allowance(from, caller) - amount;
    case BurnFrom(account, amount) => key, value := (account, caller), t.Allowance(account, caller) - amount;
    case IncreaseAllowance(spender, amount) =>
      key, value := (caller, spender), SafeAdd(t.Allowance(caller, spender), amount).value;
    case DecreaseAllowance(spender, amount) =>
      key, value := (caller, spender), t.Allowance(caller, spender) - amount;
    case _ =>
  }

  lemma ExecCannotLower(t: Token, caller: EthAddress, call: TokenCall, victim: EthAddress)
    requires Balanced(t) && Exec(t, caller, call).Some? && caller != victim && AllowsNothing(t, victim)
    ensures t.BalanceOf(victim) <= Exec(t, caller, call).value.BalanceOf(victim)
  {
    assert t.Allowance(victim, caller) == 0;
    match call
    case Transfer(to, value) => MoveSucceedsExactly(t, caller, to, value);
    case TransferFrom(from, to, value) => MoveSucceedsExactly(Spend(t, from, caller, value).value, from, to, value);
    case Mint(account, value) => MintSucceedsExactly(t, account, value);
    case _ =>
  }

  /**
   A caller can neither lower the balance nor change the allowances of another account that allowed nothing to
   anyone.
   */
  lemma ExecCannotTakeFrom(t: Token, caller: EthAddress, call: TokenCall, victim: EthAddress)
    requires Balanced(t) && Exec(t, caller, call).Some? && caller != victim && AllowsNothing(t, victim)
    ensures t.BalanceOf(victim) <= Exec(t, caller, call).value.BalanceOf(victim)
    ensures AllowsNothing(Exec(t, caller, call).value, victim)
  {
    ExecCannotLower(t, caller, call, victim);
    var key, value := ExecSetsAllowance(t, caller, call);
    AllowsNothingAfter(t, Exec(t, caller, call).value, victim, key, value);
  }

  /** A run of calls; a reverting call changes nothing. */
  function RunCalls(t: Token, calls: seq<(EthAddress, TokenCall)>): Token {
    if calls == [] then t
    else
      var before := RunCalls(t, calls[..|calls| - 1]);
      var last := calls[|calls| - 1];
      match Exec(before, last.0, last.1)
      case None => before
      case Some(after) => after
  }

  /** Over every run of calls the balances sum to the total supply, so no addition to a balance ever overflows. */
  lemma {:induction false} LedgerBalanced(t: Token, calls: seq<(EthAddress, TokenCall)>)
    requires Balanced(t)
    ensures Balanced(RunCalls(t, calls))
  {
    if calls != [] {
      var before := RunCalls(t, calls[..|calls| - 1]);
      var last := calls[|calls| - 1];
      LedgerBalanced(t, calls[..|calls| - 1]);
      if Exec(before, last.0, last.1).Some? {
        ExecKeepsBalanced(before, last.0, last.1);
      }
    }
  }

  // ---------------------------------------------------------------- spending on behalf of others

  /** What a successful call lets the spender take from the owner. */
  function Grant(caller: EthAddress, call: TokenCall, owner: EthAddress, spender: EthAddress): nat {
    if caller != owner then 0
    else match call
      case Approve(s, value) => if s == spender then value else 0
      case IncreaseAllowance(s, value) => if s == spender then value else 0
      case _ => 0
  }

  /** What a successful call by the spender takes from the owner. */
  function Taking(caller: EthAddress, call: TokenCall, owner: EthAddress, spender: EthAddress): nat {
    if caller != spender then 0
    else match call
      case TransferFrom(from, to, value) => if from == owner then value else 0
      case BurnFrom(account, value) => if account == owner then value else 0
      case _ => 0
  }

  /** What the spender was granted less what it took, over the successful calls of a run. */
  function NetGranted(t: Token, calls: seq<(EthAddress, TokenCall)>, owner: EthAddress, spender: EthAddress): int {
    if calls == [] then t.Allowance(owner, spender)
    else
      var before := RunCalls(t, calls[..|calls| - 1]);
      var last := calls[|calls| - 1];
      NetGranted(t, calls[..|calls| - 1], owner, spender) +
        if Exec(before, last.0, last.1).None? then 0
        else Grant(last.0, last.1, owner, spender) - Taking(last.0, last.1, owner, spender)
  }

  lemma AllowanceStep(t: Token, caller: EthAddress, call: TokenCall, owner: EthAddress, spender: EthAddress)
    requires Exec(t, caller, call).Some?
    ensures Exec(t, caller, call).value.Allowance(owner, spender) <=
              t.Allowance(owner, spender) + Grant(caller, call, owner, spender) - Taking(caller, call, owner, spender)
  {
    if call.IncreaseAllowance? {
      SafeAddExact(t.Allowance(caller, call.spender), call.value);
    }
  }

  /**
   On every run a spender never takes more from an owner than it was granted: the open allowance is at most grants
   less takings.
   */
  lemma {:induction false} SpendingWithinGrants(
    t: Token, calls: seq<(EthAddress, TokenCall)>, owner: EthAddress, spender: EthAddress)
    ensures 0 <= RunCalls(t, calls).Allowance(owner, spender) <= NetGranted(t, calls, owner, spender)
  {
    if calls != [] {
      var before := RunCalls(t, calls[..|calls| - 1]);
      var last := calls[|calls| - 1];
      SpendingWithinGrants(t, calls[..|calls| - 1], owner, spender);
      if Exec(before, last.0, last.1).Some? {
        AllowanceStep(before, last.0, last.1, owner, spender);
      }
    }
  }

  // ---------------------------------------------------------------- the contract

  class ERC20 {
    var balances: map<EthAddress, uint256>
    var allowed: map<(EthAddress, EthAddress), uint256>
    var totalSupply: uint256

    constructor ()
      ensures View() == NEW_TOKEN
    {
      balances, allowed, totalSupply := map[], map[], 0;
    }

    function View(): Token
      reads this
    {
      Token(balances, allowed, totalSupply)
    }

    // Each call returns whether it succeeded; a revert undoes what it had already written.

    method InternalTransfer(from: EthAddress, to: EthAddress, value: uint256) returns (ok: bool)
      modifies this
      ensures ok <==> Move(old(View()), from, to, value).Some?
      ensures View() == if ok then Move(old(View()), from, to, value).value else old(View())
    {
      if to == ZERO_ADDRESS {
        return false;
      }
      var rest := SafeSub(View().BalanceOf(from), value);
      if rest == None {
        return false;
      }
      var before := balances;
      balances := balances[from := rest.value];
      var sum := SafeAdd(View().BalanceOf(to), value);
      if sum == None {
        balances := before;
        return false;
      }
      balances := balances[to := sum.value];
      return true;
    }

    method Call(caller: EthAddress, call: TokenCall) returns (ok: bool)
      modifies this
      ensures ok <==> Exec(old(View()), caller, call).Some?
      ensures View() == if ok then Exec(old(View()), caller, call).value else old(View())
    {
      match call {
        case Transfer(to, value) => ok := InternalTransfer(caller, to, value);
        case Approve(spender, value) => ok := Approve(caller, spender, value);
        case TransferFrom(from, to, value) => ok := TransferFrom(caller, from, to, value);
        case IncreaseAllowance(spender, value) => ok := IncreaseAllowance(caller, spender, value);
        case DecreaseAllowance(spender, value) => ok := DecreaseAllowance(caller, spender, value);
        case Mint(account, value) => ok := InternalMint(account, value);
        case Burn(value) => ok := InternalBurn(caller, value);
        case BurnFrom(account, value) => ok := BurnFrom(caller, account, value);
      }
    }

    method Approve(caller: EthAddress, spender: EthAddress, value: uint256) returns (ok: bool)
      modifies this`allowed
      ensures ok <==> spender != ZERO_ADDRESS
      ensures allowed == if ok then old(allowed)[(caller, spender) := value] else old(allowed)
    {
      ok := spender != ZERO_ADDRESS;
      if ok {
        allowed := allowed[(caller, spender) := value];
      }
    }

    method TransferFrom(caller: EthAddress, from: EthAddress, to: EthAddress, value: uint256) returns (ok: bool)
      modifies this
      ensures ok <==> Exec(old(View()), caller, TokenCall.TransferFrom(from, to, value)).Some?
      ensures View() ==
                if ok then Exec(old(View()), caller, TokenCall.TransferFrom(from, to, value)).value else old(View())
    {
      var rest := SafeSub(View().Allowance(from, caller), value);
      if rest == None {
        return false;
      }
      var before := allowed;
      allowed := allowed[(from, caller) := rest.value];
      ok := InternalTransfer(from, to, value);
      if !ok {
        allowed := before;
      }
    }

    method IncreaseAllowance(caller: EthAddress, spender: EthAddress, addedValue: uint256) returns (ok: bool)
      modifies this`allowed
      ensures ok <==> Exec(old(View()), caller, TokenCall.IncreaseAllowance(spender, addedValue)).Some?
      ensures View() ==
                if ok then Exec(old(View()), caller, TokenCall.IncreaseAllowance(spender, addedValue)).value
                else old(View())
    {
      var sum := SafeAdd(View().Allowance(caller, spender), addedValue);
      if spender == ZERO_ADDRESS || sum == None {
        return false;
      }
      allowed := allowed[(caller, spender) := sum.value];
      return true;
    }

    method DecreaseAllowance(caller: EthAddress, spender: EthAddress, subtractedValue: uint256) returns (ok: bool)
      modifies this`allowed
      ensures ok <==> Exec(old(View()), caller, TokenCall.DecreaseAllowance(spender, subtractedValue)).Some?
      ensures View() ==
                if ok then Exec(old(View()), caller, TokenCall.DecreaseAllowance(spender, subtractedValue)).value
                else old(View())
    {
      var rest := SafeSub(View().Allowance(caller, spender), subtractedValue);
      if spender == ZERO_ADDRESS || rest == None {
        return false;
      }
      allowed := allowed[(caller, spender) := rest.value];
      return true;
    }

    method InternalMint(account: EthAddress, value: uint256) returns (ok: bool)
      modifies this
      ensures ok <==> MintTo(old(View()), account, value).Some?
      ensures View() == if ok then MintTo(old(View()), account, value).value else old(View())
    {
      if account == ZERO_ADDRESS {
        return false;
      }
      var supply := SafeAdd(totalSupply, value);
      if supply == None {
        return false;
      }
      var before := totalSupply;
      totalSupply := supply.value;
      var sum := SafeAdd(View().BalanceOf(account), value);
      if sum == None {
        totalSupply := before;
        return false;
      }
      balances := balances[account := sum.value];
      return true;
    }

    method InternalBurn(account: EthAddress, value: uint256) returns (ok: bool)
      modifies this
      ensures ok <==> BurnOf(old(View()), account, value).Some?
      ensures View() == if ok then BurnOf(old(View()), account, value).value else old(View())
    {
      if account == ZERO_ADDRESS {
        return false;
      }
      var supply := SafeSub(totalSupply, value);
      if supply == None {
        return false;
      }
      var before := totalSupply;
      totalSupply := supply.value;
      var rest := SafeSub(View().BalanceOf(account), value);
      if rest == None {
        totalSupply := before;
        return false;
      }
      balances := balances[account := rest.value];
      return true;
    }

    method BurnFrom(caller: EthAddress, account: EthAddress, value: uint256) returns (ok: bool)
      modifies this
      ensures ok <==> Exec(old(View()), caller, TokenCall.BurnFrom(account, value)).Some?
      ensures View() == if ok then Exec(old(View()), caller, TokenCall.BurnFrom(account, value)).value else old(View())
    {
      var rest := SafeSub(View().Allowance(account, caller), value);
      if rest == None {
        return false;
      }
      var before := allowed;
      allowed := allowed[(account, caller) := rest.value];
      ok := InternalBurn(account, value);
      if !ok {
        allowed := before;
      }
    }
  }
}
