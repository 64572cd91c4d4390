/**
 What stands behind the minted coins. Every lock mints the coin "ethereum", whatever its token, and releasing an
 item does not undo its mint: here is exactly which minted coins Peggy still holds ether for.
 */
module Peg {
  import opened Wrappers
  import opened Addresses
  import opened Sums
  import opened BridgeRuns
  import opened EndToEnd
  import ItemKeys
  import Escrow
  import EscrowRuns

  /** Peggy holds a locked item of this token under this key. */
  predicate Escrowed(items: Escrow.Items, id: ItemKeys.Hash, token: EthAddress) {
    id in items && items[id].locked && items[id].token == token
  }

  /** The lock event behind a minted prophecy. */
  function BackingEvent(s: System, backing: map<string, nat>, id: string): Escrow.LogEvent
    requires id in backing && backing[id] < |s.eth.log|
  {
    s.eth.log[backing[id]]
  }

  // ---------------------------------------------------------------- one minted prophecy

  /**
   A minted prophecy still has its item of some token in escrow exactly if it was locked in that token and never
   released.
   */
  lemma BackedMintExactly(
    b: Bridge, states: seq<System>, actions: seq<Action>, n: nat, backing: map<string, nat>, id: string,
    token: EthAddress)
    requires SystemTrace(b, states, actions) && Escrow.Start(states[0].eth) && n < |states|
    requires IsBacking(b, states[n], backing) && Minted(states[n], id)
    ensures
      var w, e := states[n].eth, BackingEvent(states[n], backing, id);
      && (Escrowed(w.items, e.id, token) <==> e.token == token && EscrowRuns.ReleaseCount(w.log, e.id) == 0)
      && (Escrowed(w.items, e.id, token) ==> w.items[e.id].amount == e.value && w.items[e.id].sender == e.from)
  {
    var txs := EthereumRun(b, states, actions, n);
    EscrowRuns.LockedExactly(states[0].eth, txs, backing[id]);
  }

  // ---------------------------------------------------------------- all minted prophecies

  /** What the minted prophecies paid whose item of this token is still in escrow. */
  function EscrowedAwards(b: Bridge, s: System, backing: map<string, nat>, token: EthAddress): map<string, int>
    requires IsBacking(b, s, backing)
  {
    map id | id in s.cosmos.polls && Minted(s, id) && Escrowed(s.eth.items, BackingEvent(s, backing, id).id, token) ::
      AwardTotal(b.env, s.cosmos.polls[id])
  }

  /** What all the others paid. */
  function UnescrowedAwards(b: Bridge, s: System, backing: map<string, nat>, token: EthAddress): map<string, int>
    requires IsBacking(b, s, backing)
  {
    map id | id in s.cosmos.polls && Minted(s, id) && !Escrowed(s.eth.items, BackingEvent(s, backing, id).id, token) ::
      AwardTotal(b.env, s.cosmos.polls[id])
  }

  /** The item behind each minted prophecy. */
  function BackingItems(b: Bridge, s: System, backing: map<string, nat>): map<string, ItemKeys.Hash>
    requires IsBacking(b, s, backing)
  {
    map id | id in s.cosmos.polls && Minted(s, id) :: BackingEvent(s, backing, id).id
  }

  /** Distinct minted prophecies have distinct items. */
  lemma BackingItemsDistinct(
    b: Bridge, states: seq<System>, actions: seq<Action>, n: nat, backing: map<string, nat>, id: string, other: string)
    requires SystemTrace(b, states, actions) && Escrow.Start(states[0].eth) && n < |states|
    requires IsBacking(b, states[n], backing) && Minted(states[n], id) && Minted(states[n], other)
    requires BackingEvent(states[n], backing, id).id == BackingEvent(states[n], backing, other).id
    ensures id == other
  {
    var txs := EthereumRun(b, states, actions, n);
    EscrowRuns.LockIdsDistinct(states[0].eth, txs, backing[id], backing[other]);
  }

  lemma EscrowedAwardOwed(
    b: Bridge, states: seq<System>, actions: seq<Action>, n: nat, backing: map<string, nat>, token: EthAddress,
    id: string)
    requires SystemTrace(b, states, actions) && Escrow.Start(states[0].eth) && n < |states|
    requires IsBacking(b, states[n], backing) && id in EscrowedAwards(b, states[n], backing, token)
    ensures
      var owed := EscrowRuns.OwedMap(states[n].eth.items, None, token);
      var key := BackingItems(b, states[n], backing)[id];
      key in owed && EscrowedAwards(b, states[n], backing, token)[id] <= owed[key]
  {
    BackedMintExactly(b, states, actions, n, backing, id, token);
    BackedAward(b, states[n].eth.log, id, states[n].cosmos.polls[id], backing[id]);
  }

  /**
   On every run and for each token, what Peggy holds covers all minted coins whose lock of that token is not
   released.
   */
  lemma EscrowedMintsCovered(
    b: Bridge, states: seq<System>, actions: seq<Action>, n: nat, backing: map<string, nat>, token: EthAddress)
    requires SystemTrace(b, states, actions) && Escrow.Start(states[0].eth) && n < |states|
    requires IsBacking(b, states[n], backing)
    ensures MapSum(EscrowedAwards(b, states[n], backing, token)) <= EscrowRuns.Owed(states[n].eth.items, None, token)
    ensures EscrowRuns.Owed(states[n].eth.items, None, token) <= Escrow.Balance(states[n].eth, token)
  {
    var s := states[n];
    var awards, keys := EscrowedAwards(b, s, backing, token), BackingItems(b, s, backing);
    forall id | id in awards
      ensures id in keys && keys[id] in EscrowRuns.OwedMap(s.eth.items, None, token)
      ensures awards[id] <= EscrowRuns.OwedMap(s.eth.items, None, token)[keys[id]]
    {
      EscrowedAwardOwed(b, states, actions, n, backing, token, id);
    }
    forall id, other | id in awards && other in awards && keys[id] == keys[other]
      ensures id == other
    {
      BackingItemsDistinct(b, states, actions, n, backing, id, other);
    }
    SumInjection(awards, EscrowRuns.OwedMap(s.eth.items, None, token), keys);
    var txs := EthereumRun(b, states, actions, n);
    EscrowRuns.Solvency(states[0].eth, txs, token);
  }

  /** A minted prophecy that paid something and whose ether is no longer in escrow, or never was ether. */
  ghost predicate Uncovered(b: Bridge, s: System, backing: map<string, nat>, id: string)
    requires IsBacking(b, s, backing)
  {
    && Minted(s, id) && 0 < AwardTotal(b.env, s.cosmos.polls[id])
    && (BackingEvent(s, backing, id).token != ZERO_ADDRESS ||
        EscrowRuns.ReleaseCount(s.eth.log, BackingEvent(s, backing, id).id) != 0)
  }

  lemma AwardsSplit(b: Bridge, s: System, backing: map<string, nat>, token: EthAddress)
    requires IsBacking(b, s, backing)
    ensures MapSum(AwardTotals(b.env, s.cosmos.polls)) ==
              MapSum(EscrowedAwards(b, s, backing, token)) + MapSum(UnescrowedAwards(b, s, backing, token))
  {
    var polls := s.cosmos.polls;
    var minted := map id | id in polls && Minted(s, id) :: AwardTotal(b.env, polls[id]);
    SumSplit(minted, EscrowedAwards(b, s, backing, token), UnescrowedAwards(b, s, backing, token));
    var pending := map id | id in polls && !Minted(s, id) :: AwardTotal(b.env, polls[id]);
    SumSplit(AwardTotals(b.env, polls), minted, pending);
    ZeroSum(pending);
  }

  /**
   The peg: on every run, the coins minted beyond those uncovered are at most the ether Peggy holds; and nothing is
   uncovered exactly when every paid lock was of ether and has not been released.
   */
  lemma PegHoldsExactly(b: Bridge, states: seq<System>, actions: seq<Action>, n: nat, backing: map<string, nat>)
    requires SystemTrace(b, states, actions) && Escrow.Start(states[0].eth) && n < |states|
    requires IsBacking(b, states[n], backing)
    ensures
      var uncovered := MapSum(UnescrowedAwards(b, states[n], backing, ZERO_ADDRESS));
      && 0 <= uncovered
      && MapSum(states[n].cosmos.bank) - MapSum(states[0].cosmos.bank) - uncovered
           <= Escrow.Balance(states[n].eth, ZERO_ADDRESS)
      && (uncovered == 0 <==> forall id :: !Uncovered(b, states[n], backing, id))
  {
    var s := states[n];
    AwardsSplit(b, s, backing, ZERO_ADDRESS);
    EscrowedMintsCovered(b, states, actions, n, backing, ZERO_ADDRESS);
    UncoveredSum(b, states, actions, n, backing);
    var chains, events := CosmosRun(b, states, actions, n);
    MintConservation(b.env, chains, events, |chains| - 1, ([], ""));
  }

  lemma UncoveredSum(b: Bridge, states: seq<System>, actions: seq<Action>, n: nat, backing: map<string, nat>)
    requires SystemTrace(b, states, actions) && Escrow.Start(states[0].eth) && n < |states|
    requires IsBacking(b, states[n], backing)
    ensures
      var uncovered := MapSum(UnescrowedAwards(b, states[n], backing, ZERO_ADDRESS));
      0 <= uncovered && (uncovered == 0 <==> forall id :: !Uncovered(b, states[n], backing, id))
  {
    var s := states[n];
    var awards := UnescrowedAwards(b, s, backing, ZERO_ADDRESS);
    forall id | Minted(s, id)
      ensures 0 <= AwardTotal(b.env, s.cosmos.polls[id])
      ensures Uncovered(b, s, backing, id) <==> id in awards && 0 < awards[id]
    {
      BackedMintExactly(b, states, actions, n, backing, id, ZERO_ADDRESS);
      BackedAward(b, s.eth.log, id, s.cosmos.polls[id], backing[id]);
    }
    SumNonNegative(awards);
    if id :| Uncovered(b, s, backing, id) {
      EntryLeqSum(awards, id);
    } else {
      forall id | id in awards ensures awards[id] == 0 {
        assert !Uncovered(b, s, backing, id);
      }
      ZeroSum(awards);
    }
  }
}
