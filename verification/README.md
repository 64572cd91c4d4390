# Peg zone bridge: a verified model

This project models a one-way bridge from Ethereum to Cosmos and proves what it is meant to guarantee.
On Ethereum, the Peggy contract locks ether or ERC20 tokens as items and logs each lock. Validators of the
Cosmos chain see the log and submit claims; an oracle counts the claims of each *prophecy* by stake, and when
enough power stands behind one claim the handler mints its coins.

## The two machines and their composition

**Oracle and mint machine.** `Consensus.dfy` defines the stake-weighted tally without any order (a poll is a
map from validator to claim, and the leading claim is any claim of maximal power). `Voting.dfy` proves what a
single poll does over all sequences of submissions, and `OrderSensitivity.dfy` says exactly when their order can
matter, for every threshold. `Prophecies.dfy` and `OracleKeeper.dfy` are the imperative code: the `Prophecy` object
with its two indexes, the nested counting loops in 64-bit arithmetic, the JSON database form, and the `Keeper` with its store.
Each method is proved against the order-free specification. `BridgeClaims.dfy` (over `Json.dfy` and `Text.dfy`)
holds claim texts and oracle ids, `BridgeHandler.dfy` the message handler and the bank, `Querier.dfy` the query.
`BridgeMachine.dfy` is the specification of one delivered message and of runs of messages and stake changes;
`BridgeRuns.dfy` proves finality, evidence, conservation and projection over those runs. `PollRuns.dfy` shows how a run
acts on one prophecy and that every run can go on; `Exhaustion.dfy` says exactly when a pending prophecy can still
change. `Replicas.dfy` proves exactly when replicas that visit maps in different orders stay in the same state, and
`ReplicaWitness.dfy` has a run where they do not.

**Escrow machine.** `Erc20.dfy` is the token: SafeMath, the ledger on values, and the contract object.
`ItemKeys.dfy` proves that item keys are injective. `Escrow.dfy` is the whole Ethereum side on values, one
transaction at a time, `PeggyContract.dfy` the contract object proved against it, `EscrowRuns.dfy` the theorems over
all runs of transactions by anyone (solvency and the log), and `Payments.dfy` says who pays whom in every lock and
release, that no ether is created or lost, and what pausing does.

**Composition.** `Relayer.dfy` is the relayer's parser. `EndToEnd.dfy` runs both machines side by side, lets
faulty validators send anything while the others relay emitted locks, and proves that every mint has its own lock and
that the total minted never exceeds the total locked. `Tightness.dfy` shows exactly how much honest power that needs.
`Liveness.dfy` proves the converse: what enough honest validators relay is always minted. `Peg.dfy` says exactly which minted coins Peggy still holds ether for, and `PegWitness.dfy` has two runs
after which it holds none.

## Modelling choices

- The consensus threshold is a rational `num/den`, and ratios are compared exactly by cross-multiplication.
- A staking snapshot gives each bonded validator's power and the last total power; the total is positive, and
  the bonded powers and the total fit in 64 bits. One snapshot serves the bonded check and both power queries of a
  call. Lemmas that speak of remaining power take the total to be at least (`Covers`) or exactly (`Exact`) the
  bonded sum and say so.
- Go's map iteration is a repeated arbitrary choice of an unvisited key, so every contract holds for every order.
- Address text (bech32) is a parameter, any text form whose parser undoes it on non-empty addresses. Keccak256 is
  an injective constructor over the packed bytes; that the packing is injective is proved. The bank's acceptance
  of a deposit (any function of balances, account and coins), the letter case of a checksummed hex address and the
  amounts `sdk.ParseCoins` accepts are parameters.
- A message whose handler returns an error leaves no writes, as the SDK discards them. A reverting Ethereum
  transaction changes nothing. Minting and burning of tokens are open to every account, the worst case for Peggy.
- Ghost state: `Keeper.polls` records the votes behind each stored record, and some methods take those votes as a
  ghost parameter. `Valid()` ties them to the stored text.

## Where the code differs from what one would expect

- Success is decided with `>=` and failure with `<=` (x/oracle/keeper/keeper.go:133-136). At exact equality a poll
  can fail although its claim could still have reached the threshold (`FailureSoundExactly`), and the result can
  depend on the order of submission (`ExactThresholdOrderMatters`). `OrderMattersExactly` gives the exact condition
  for every threshold: two claims that both reach it, or one that ends exactly at it and whose supporters split.
- Thresholds up to one half are accepted by `NewKeeper`. Two claims can then tie over the threshold after a change of
  stake, and the map iteration order decides which one is paid (`ReplicasCanDisagree`; `ReplicasAgreeExactly` has the
  exact condition for every run). With a majority threshold of a
  total power that covers the bonded power (`MajorityReplicasAgree`), or while the stake does not change
  (`FixedStakeReplicasAgree`), replicas always agree.
- The tally runs only when a claim is accepted. After a change of stake a prophecy can stay pending although all bonded
  validators have claimed and all the power is behind one claim (`StakeChangeStrands`). It then stands still until
  another validator is bonded (`ExhaustedStays`, `CanChangeExactly`).
- A threshold of exactly 1 is accepted too, but then nothing stays pending: the first claim either holds
  all the power or fails the prophecy (`FullThresholdNeverPends`, `FullThresholdOrderExactly`, `CanSucceedExactly`).
- `ParsePayload` ignores its errors and the token. A nonce beyond 63 bits is clamped, an unreadable recipient becomes
  empty, an unreadable amount becomes no coins, and every lock mints the coin `ethereum`, whatever its token
  (`TokenLockMintsEther`). Locks share a prophecy exactly when sender and clamped nonce agree
  (`SharedPropheciesExactly`); the end-to-end bound holds regardless.
- Withdrawing or unlocking an item does not undo its mint (`WithdrawnLockStaysMinted`). The bound on minting is
  therefore against everything ever locked. A minted prophecy still has its ether in escrow exactly if its lock was of
  ether and has not been released (`BackedMintExactly`), and the ether Peggy holds covers all of those
  (`EscrowedMintsCovered`, `PegHoldsExactly`).

## Model

| member | source | states |
|---|---|---|
| EndToEnd.EndToEndBound | x/ethbridge/handler.go:38-48 | While faulty validators hold less than the threshold in every snapshot, on every interleaved run of both chains each mint belongs to its own emitted lock, pays that lock's recipient its value, and all minting stays within the sum of the lock values |
| EndToEnd.RecipientBound | cmd/ebrelayer/txs/parser.go:36-52 | On every such run an account gains at most the values of the emitted locks that name it, in the coin `ethereum`, and its balances in all other denominations do not change |
| Tightness.UnbackedMintExactly | x/oracle/keeper/keeper.go:126-140 | Faulty validators alone, without any lock event, can bring a prophecy to success under a snapshot if and only if they reach the threshold; at a threshold of 1, if and only if one of them holds all the power |
| Tightness.PowerMintsUnbacked | x/oracle/keeper/keeper.go:133-135 | Below a threshold of 1, for any acceptable message, faulty power at the threshold has such a run |
| Peg.BackedMintExactly | ethereum-contracts/contracts/Peggy.sol:143-205 | On every run of both chains, a minted prophecy still has its item of a token in escrow if and only if it was locked in that token and no release of it was logged; the item is then its lock's |
| Peg.EscrowedMintsCovered | ethereum-contracts/contracts/Processor.sol:119-145 | On every run and for each token, the minted coins whose lock of that token is unreleased are at most what Peggy owes, and that is at most what it holds |
| Peg.PegHoldsExactly | cmd/ebrelayer/txs/parser.go:46-52 | The coins minted on a run, less those not covered, are at most Peggy's ether; nothing is uncovered if and only if every paid lock was of ether and is unreleased |
| PegWitness.WithdrawnLockStaysMinted | ethereum-contracts/contracts/Peggy.sol:179-205 | A run of lock, relay and withdrawal after which the value is minted and Peggy holds no ether |
| PegWitness.TokenLockMintsEther | cmd/ebrelayer/txs/parser.go:46-52 | A run of a token lock and its relay after which as many coins `ethereum` are minted and Peggy holds no ether |
| Liveness.RelayedLockIsMinted | x/oracle/keeper/keeper.go:82-112 | For every threshold and any changes of stake: once validators that are not faulty relayed a lock with its own prophecy, and were bonded above the threshold with the bank taking its deposit whenever that prophecy was voted on, it has succeeded with that lock's claim, whatever all others sent or did not send and in any order |
| Liveness.CourseOfRun | x/oracle/keeper/keeper.go:82-140 | On such a run the prophecy never fails, succeeds only for the honest claim, and while it is pending has counted every message of those validators |
| Liveness.OwnProphecyExactly | cmd/ebrelayer/txs/parser.go:26-34 | On every run a lock has its own prophecy if and only if its nonce is below 2^63-1 or no other lock of its sender reached that nonce |
| EndToEnd.EverythingBacked | cmd/ebrelayer/txs/parser.go:22-55 | On every run each honest vote and each final claim is the payload of a lock event already emitted under that prophecy's id |
| EndToEnd.HonestSupporter | x/oracle/keeper/keeper.go:126-136 | A claim that reaches the threshold has a supporter outside any set of validators below the threshold |
| PollRuns.RunIsPlay | x/oracle/keeper/keeper.go:82-112 | Under a fixed snapshot, what a whole run does to a prophecy whose deposits the bank takes is the play of that prophecy's acceptable messages, in order |
| PollRuns.StepSubmits | x/ethbridge/handler.go:38-48 | Under any snapshot, a delivered message whose payout is possible acts on its prophecy as one ballot |
| PollRuns.RunContinues | x/ethbridge/handler.go:28-50 | Every run can be continued by any events: the handler always answers |
| EndToEnd.CosmosRun | x/ethbridge/handler.go:15-25 | The Cosmos actions of a run of the whole bridge form a run of the Cosmos machine with the same first and last state |
| Relayer.ParsePayload | cmd/ebrelayer/txs/parser.go:22-55 | The claim carries the event's nonce or 2^63-1 when it is larger, the sender's bytes spelled in hexadecimal, the receiver the depositor named or none, and at most the event's value, all of it in the coin `ethereum`; the handler rejects it only for an unreadable recipient |
| Relayer.PayloadDetermines | cmd/ebrelayer/txs/parser.go:22-55 | Equal claims come from the same validator, sender and receiver, the same nonce below the clamp, and the same value when it parses |
| Relayer.HexInjective | cmd/ebrelayer/txs/parser.go:33-34 | The hex text of a sender determines the address |
| Relayer.HexIsValid | cmd/ebrelayer/txs/parser.go:33-34 | The hex text the relayer sends always passes the handler's address check |
| Relayer.HexSpells | cmd/ebrelayer/txs/parser.go:33-34 | The text is 0x and then, byte by byte, the two hexadecimal digits of the address |
| Relayer.AmountIsEther | cmd/ebrelayer/txs/parser.go:46-52 | The coins of a lock are `ethereum`, nothing of any other denomination, and the whole value when it parses |
| Relayer.SharedPropheciesExactly | cmd/ebrelayer/txs/parser.go:26-34 | Two locks are voted on in the same prophecy if and only if sender and clamped nonce agree |
| Voting.DecisionMeaning | x/oracle/keeper/keeper.go:126-140 | A decision is success iff some claim reached the threshold, failure iff none did and none could still exceed it; a final claim is a maximal claim over the threshold |
| Voting.OrderFreeExactly | x/oracle/types/prophecy.go:99-114 | Over all iteration orders the status text is the same; the final claim is too if and only if no two leading claims tie at or over the threshold |
| Voting.MajorityDeterminesStatus | x/oracle/types/prophecy.go:99-114 | Above one half, every iteration order gives the same status and final claim |
| Replicas.MajorityReplicasAgree | x/oracle/types/prophecy.go:99-114 | Above one half, two replicas that start alike and execute the same messages and stake changes, each with its own iteration orders, hold the same state after every step |
| Replicas.FixedStakeReplicasAgree | x/oracle/types/prophecy.go:99-114 | Under any threshold the same holds while the stake does not change |
| Replicas.ReplicasAgreeExactly | x/oracle/types/prophecy.go:99-114 | Under any threshold and any changes of stake, with a bank that takes deposits, every replica executing the same events follows a run if and only if no step of it was ambiguous |
| Replicas.AmbiguousDiverges | x/oracle/types/prophecy.go:102-113 | A message whose outcomes differ between iteration orders, and can be paid, leads to two different states |
| ReplicaWitness.ReplicasCanDisagree | x/oracle/types/prophecy.go:102-113 | At two fifths, a run with a stake change after which two replicas have paid different accounts |
| Voting.DecidingVoteDeterminesStatus | x/oracle/keeper/keeper.go:98-106 | Under any threshold, the claim that first crosses it is the one just submitted, so all replicas agree on it |
| Voting.HopelessExactly | x/oracle/keeper/keeper.go:130-138 | The early-failure test holds if and only if no continuation by the remaining validators lifts any claim above the threshold |
| Voting.FailureSoundExactly | x/oracle/keeper/keeper.go:133-138 | A failed poll could not have reached the threshold if and only if its best possible power differs from it |
| Voting.TallyMonotone | x/oracle/keeper/keeper.go:127-132 | A further claim never lowers the highest power and never raises the best possible power |
| Voting.PlaysInv | x/oracle/keeper/keeper.go:82-140 | Over every sequence of submissions to one poll, success and failure are exactly their tally conditions, and only a success has a final claim |
| Voting.AllClaimedDecides | x/oracle/keeper/keeper.go:126-140 | A poll played under one snapshot is no longer pending once all bonded validators have claimed |
| Exhaustion.CanChangeExactly | x/oracle/keeper/keeper.go:90-107 | With a bank that takes deposits, a pending prophecy of a reachable state can still change if and only if some bonded validator has not claimed |
| Exhaustion.ExhaustedStays | x/oracle/keeper/keeper.go:90-107 | On every run, while only validators that have claimed are bonded, the prophecy does not change |
| Exhaustion.StakeChangeStrands | x/oracle/keeper/keeper.go:90-107 | A run with a stake change after which all bonded validators have claimed, one claim has all the power, and the prophecy is pending |
| Voting.PendingCanSucceed | x/oracle/keeper/keeper.go:126-140 | Below a threshold of 1, from every pending poll some continuation of accepted claims, one per remaining validator at most, reaches success |
| OrderSensitivity.CanSucceedExactly | x/oracle/keeper/keeper.go:126-140 | For every threshold, some continuation of a pending poll reaches success if and only if the threshold is below 1 or one validator holds all the power |
| Voting.AgreeingMajorityWins | x/oracle/keeper/keeper.go:82-140 | Validators above a majority threshold that agree on a claim make it final in every order and against any other submissions |
| Voting.OrderIndependence | x/oracle/keeper/keeper.go:82-140 | Every order of one claim per bonded validator ends in success for the claim strictly above the threshold, and in failure when all are strictly below |
| OrderSensitivity.OrderMattersExactly | x/oracle/keeper/keeper.go:133-138 | For every threshold that is accepted, all orders of the same submissions end alike if and only if: below 1, no two claims both end at or over the threshold, and none ends exactly at it with supporters, short of it, who hold at least as much as every other claim; at 1, no validator among several holds all the power |
| OrderSensitivity.PartialThresholdOrderExactly | x/oracle/keeper/keeper.go:133-138 | The condition for thresholds below 1, one half and less included |
| OrderSensitivity.FullThresholdOrderExactly | x/oracle/keeper/keeper.go:27-38 | At a threshold of 1, orders can disagree if and only if one of several bonded validators holds all the power |
| OrderSensitivity.FirstBallotSettles | x/oracle/keeper/keeper.go:126-140 | At a threshold of 1 the first claim alone fixes the result of every longer run |
| OrderSensitivity.SupportersFirst | x/oracle/keeper/keeper.go:133-135 | Below a threshold of 1, every claim that ends at or over the threshold succeeds in some order |
| OrderSensitivity.OpponentsFirst | x/oracle/keeper/keeper.go:136-138 | If a claim ends exactly at the threshold and its supporters split, the same submissions fail in some order |
| Voting.FullThresholdNeverPends | x/oracle/keeper/keeper.go:27-38 | At a threshold of 1 no claim leaves a poll pending, and it succeeds only when one claim holds all the power |
| Voting.HalfThresholdOrderMatters | x/oracle/keeper/keeper.go:133-135 | At one half, two claims of five each: whichever is first succeeds |
| Voting.ExactThresholdOrderMatters | x/oracle/keeper/keeper.go:133-138 | Powers 3, 4, 3 at 7/10: one order succeeds and the other fails |
| Consensus.SupportBounds | x/oracle/types/prophecy.go:99-114 | Every claim's power lies between 0 and the claimed total, and that within the bonded sum, so no sum of the loops leaves int64 |
| Consensus.TallyBounds | x/oracle/keeper/keeper.go:127-132 | The remaining power is never negative and highest, best possible and total are ordered |
| Consensus.MajorityUnique | x/oracle/keeper/keeper.go:133-135 | Above one half at most one claim reaches the threshold |
| Prophecies.Prophecy.AddClaim | x/oracle/types/prophecy.go:83-89 | The validator is appended to the claim's list, its own entry names the claim, and nothing else changes |
| Prophecies.WithClaimAgrees | x/oracle/types/prophecy.go:83-89 | If both indexes hold some votes, after adding a first claim both hold those votes and this one |
| Prophecies.IndexAgreement | x/oracle/types/prophecy.go:22-27 | A validator is listed once under a claim if and only if the other index names that claim for it; no stored claim is empty |
| Prophecies.AgreementDeterminesVotes | x/oracle/types/prophecy.go:22-27 | The indexes determine the votes they stand for |
| Prophecies.Prophecy.FindHighestClaim | x/oracle/types/prophecy.go:91-115 | For every iteration order the result is a maximal claim, its power, and the power of everyone who claimed, all within int64 |
| Prophecies.Prophecy.Tally | x/oracle/types/prophecy.go:99-114 | The outer loop over the claims map, in any order |
| Prophecies.Prophecy.ClaimPower | x/oracle/types/prophecy.go:103-107 | The inner loop sums exactly the power behind one claim; validators not bonded count 0 |
| Prophecies.Prophecy.PowersByAddress | x/oracle/types/prophecy.go:92-97 | The map from address text to power holds exactly the bonded validators |
| Prophecies.Prophecy.SerializeForDB | x/oracle/types/prophecy.go:41-80 | Deserialising the result gives the prophecy back, with both maps unchanged |
| Prophecies.MarshalClaims | x/oracle/types/prophecy.go:47-50 | The JSON text of the validator index reads back as the same map, in whatever order its keys were printed |
| Prophecies.MarshalLists | x/oracle/types/prophecy.go:42-45 | The JSON text of the claim index reads back as the same lists |
| OracleKeeper.Keeper.NewKeeper | x/oracle/keeper/keeper.go:27-38 | Accepts exactly thresholds above 0 and up to 1 |
| OracleKeeper.Keeper.GetProphecy | x/oracle/keeper/keeper.go:46-63 | Empty id and missing id are errors; a stored id returns a prophecy whose indexes hold exactly its recorded votes |
| OracleKeeper.Keeper.SaveProphecy | x/oracle/keeper/keeper.go:66-80 | Refuses an empty id or no claims; otherwise replaces exactly that record |
| OracleKeeper.Keeper.ProcessClaim | x/oracle/keeper/keeper.go:82-112 | Refuses with the first applicable error and no change, or records exactly this vote with a status that the tally decides |
| OracleKeeper.Keeper.CheckOpen | x/oracle/keeper/keeper.go:92-97 | Finalised before duplicate; the comparison with the empty text is exact membership |
| OracleKeeper.Keeper.FindOpen | x/oracle/keeper/keeper.go:90-105 | The stored prophecy while it is open to the validator, a new pending one when none is stored, and otherwise the reason |
| OracleKeeper.Keeper.Admit | x/oracle/keeper/keeper.go:83-105 | The checks in their order, each with its error; otherwise a prophecy that holds exactly the votes so far |
| OracleKeeper.Keeper.CountClaim | x/oracle/keeper/keeper.go:98-111 | Adds the vote, decides the status and stores both |
| OracleKeeper.Keeper.CheckActiveValidator | x/oracle/keeper/keeper.go:114-124 | The lookup and the bond status accept exactly the validators whose power the tally counts; all others have power 0 |
| OracleKeeper.Keeper.ProcessCompletion | x/oracle/keeper/keeper.go:126-140 | The new status is one that the order-free decision allows |
| OracleKeeper.Keeper.Judge | x/oracle/keeper/keeper.go:128-138 | The two comparisons in 64-bit arithmetic give the specified outcome, without overflow |
| BridgeHandler.Handler.HandleMsgMakeEthBridgeClaim | x/ethbridge/handler.go:28-50 | Answers, votes and deposits as the machine says (its meaning is the next four rows) |
| BridgeMachine.AcceptedAnswer | x/ethbridge/handler.go:38-49 | An accepted message is answered with the status text now stored for its prophecy, and exactly its validator's vote for its claim was added; coins move only on success |
| BridgeMachine.RefusedAnswer | x/ethbridge/handler.go:29-42 | A refused message changes nothing; each reason is returned if and only if that check is the first one to fail |
| BridgeMachine.PayoutAnswer | x/ethbridge/handler.go:43-48 | A message that decides its prophecy pays the decoded final claim, or is refused because the claim is unreadable or the bank does not take it |
| BridgeMachine.ProcessAnswers | x/oracle/keeper/keeper.go:82-112 | Each of the oracle's five reasons is returned if and only if that check is the first one to fail; otherwise exactly this vote and the returned status are stored |
| BridgeHandler.Handler.ProcessSuccessfulClaim | x/ethbridge/handler.go:52-63 | Deposits the decoded claim's coins to its receiver, or reports why not and deposits nothing |
| BridgeHandler.Handler.Deliver | x/ethbridge/handler.go:28-50 | A delivered message is one step of the machine, and an error leaves the state as it was |
| BridgeHandler.BankKeeper.Deposit | x/ethbridge/handler.go:57-61 | All coins of the list are added to the account, or none |
| BridgeMachine.DeliverCases | x/ethbridge/handler.go:28-50 | A delivered message changes nothing, or records one vote and pays out on the turn to success |
| BridgeMachine.ProcessesSubmits | x/oracle/keeper/keeper.go:82-112 | A call is a submission to the poll of its id, and all other polls keep |
| BridgeRuns.StoredPollsSound | x/oracle/keeper/keeper.go:87-107 | In every reachable state no stored claim is empty, every stored prophecy has a vote, and FinalClaim is non-empty iff success |
| BridgeRuns.Finality | x/oracle/keeper/keeper.go:91-94 | A prophecy that is not pending never changes again, through any messages and stake changes |
| BridgeRuns.VotesWereCast | x/oracle/keeper/keeper.go:83-98 | Every recorded vote was an acceptable message of that validator, bonded at that step |
| BridgeRuns.SuccessHasEvidence | x/oracle/keeper/keeper.go:126-135 | At the step a prophecy turned to success, the supporters of its final claim held the threshold of that step's power |
| BridgeRuns.FailureHasEvidence | x/oracle/keeper/keeper.go:126-138 | At the step a prophecy turned to failed, with that step's power no claim had reached the threshold and none could still exceed it |
| BridgeRuns.MintConservation | x/ethbridge/handler.go:39-62 | On every run, each account's gain in each coin is the sum of the final claims paid to it, each prophecy once; and the same for the total |
| BridgeRuns.AddCoinsEffect | x/ethbridge/handler.go:58-61 | A deposit raises each balance of the receiver by the coins of that denomination and no other balance |
| BridgeRuns.VotesReadable | x/ethbridge/types/ethbridgeclaim.go:70-80 | Every vote of a run can be read back as a claim |
| BridgeRuns.FinalClaimsReadable | x/ethbridge/handler.go:53-56 | The final claim of a successful prophecy can always be read back |
| BridgeRuns.Projection | x/oracle/keeper/keeper.go:46-112 | For a bank whose acceptance does not depend on what accounts hold, dropping all other prophecies' messages from a run gives a run with the same prophecy at its end |
| BridgeClaims.ClaimRoundTrip | x/ethbridge/types/ethbridgeclaim.go:45-80 | Parsing a printed claim returns the claim, for every non-empty receiver and coin list |
| BridgeClaims.ClaimTextInjective | x/ethbridge/types/ethbridgeclaim.go:47-49 | Equal claim texts mean equal claims |
| BridgeClaims.OracleIdInjective | x/ethbridge/types/ethbridgeclaim.go:46 | For the nonces and senders the handler accepts, the id determines both |
| BridgeClaims.OracleIdLayout | x/ethbridge/types/ethbridgeclaim.go:46 | The id is the decimal nonce followed by the sender |
| BridgeClaims.ClaimTextForm | x/ethbridge/types/ethbridgeclaim.go:32-49 | A claim's text is the object with the receiver's address text under `cosmos_receiver` and the coin list under `amount` |
| BridgeClaims.CoinTextForm | x/ethbridge/types/ethbridgeclaim.go:48 | A coin's text is the object with `denom` and the decimal `amount`, both as strings |
| Addresses.ValidEthAddressExactly | x/ethbridge/common/common.go:5-8 | Accepted are exactly 40 hexadecimal digits, alone or after 0x or 0X |
| Text.DecimalForm | x/ethbridge/types/ethbridgeclaim.go:46 | Decimal text, most significant digit first, with a leading minus sign |
| Json.PrintParses | x/ethbridge/types/ethbridgeclaim.go:48-74 | Parsing undoes printing for every JSON value of RFC 8259 made of strings, arrays, objects and null, with the escapes of its section 7 |
| Json.PlainText | x/ethbridge/types/ethbridgeclaim.go:48 | Text without special characters is printed as it is, between quotes |
| Json.WholeTextParses | x/ethbridge/types/ethbridgeclaim.go:70-77 | White space around a value is skipped; any other text after it makes parsing fail |
| Querier.MapOracleClaimsToEthBridgeClaims | x/ethbridge/querier/querier.go:61-77 | For any order, one claim per index entry, each the entry read back; an error only for an entry that cannot be read |
| Querier.QueryEthProphecy | x/ethbridge/querier/querier.go:32-59 | The stored status and all claims of the prophecy whose id the parameters spell, or not found |
| Querier.OneClaimPerValidator | x/ethbridge/querier/querier.go:61-77 | Each voter has exactly one claim in the answer |
| Querier.EthClaimRoundTrip | x/ethbridge/types/ethbridgeclaim.go:45-68 | A bridge claim converted to its oracle form and back is unchanged |
| Querier.QueryReturnsMessages | x/ethbridge/querier/querier.go:40-51 | On every run, each claim of the answer is exactly the message that its validator submitted |
| Erc20.SafeAddExact | cmd/ebrelayer/contract/Peggy.sol:50-55 | The wrap-around test fails if and only if the true sum does not fit |
| Erc20.MoveSucceedsExactly | cmd/ebrelayer/contract/Peggy.sol:221-227 | In a balanced ledger a transfer reverts only for the zero address or a short balance, and moves exactly the value |
| Erc20.MintSucceedsExactly | cmd/ebrelayer/contract/Peggy.sol:236-242 | Minting reverts only for the zero address or a total supply that would overflow |
| Erc20.BurnSucceedsExactly | cmd/ebrelayer/contract/Peggy.sol:250-256 | Burning reverts only for the zero address or a short balance |
| Erc20.ExecKeepsBalanced | cmd/ebrelayer/contract/Peggy.sol:142-270 | Every successful call keeps the balances summing to the total supply |
| Erc20.LedgerBalanced | cmd/ebrelayer/contract/Peggy.sol:142-270 | So does every run of calls by anyone |
| Erc20.TransferExactly | cmd/ebrelayer/contract/Peggy.sol:142-145 | When a transfer succeeds, and every balance, allowance and the supply after it |
| Erc20.ApproveExactly | cmd/ebrelayer/contract/Peggy.sol:156-162 | When an approval succeeds; exactly that allowance now has that value |
| Erc20.TransferFromExactly | cmd/ebrelayer/contract/Peggy.sol:172-177 | When it succeeds; the value moved and exactly that allowance fell by it |
| Erc20.IncreaseAllowanceExactly | cmd/ebrelayer/contract/Peggy.sol:189-195 | When it succeeds; exactly that allowance rose by the value |
| Erc20.DecreaseAllowanceExactly | cmd/ebrelayer/contract/Peggy.sol:207-213 | When it succeeds; exactly that allowance fell by the value |
| Erc20.MintExactly | cmd/ebrelayer/contract/Peggy.sol:236-242 | When it succeeds; the supply and that balance rose by the value, no other balance or allowance changed |
| Erc20.BurnExactly | cmd/ebrelayer/contract/Peggy.sol:250-256 | When it succeeds; the supply and that balance fell by the value, no other balance or allowance changed |
| Erc20.BurnFromExactly | cmd/ebrelayer/contract/Peggy.sol:266-270 | When it succeeds; supply, that balance and that allowance fell by the value, nothing else changed |
| Erc20.ExecCannotTakeFrom | cmd/ebrelayer/contract/Peggy.sol:156-227 | A caller cannot lower the balance or touch the allowances of another account that allowed nothing |
| Erc20.SpendingWithinGrants | cmd/ebrelayer/contract/Peggy.sol:156-213 | On every run a spender takes no more from an owner than it was granted |
| Erc20.ERC20.constructor | cmd/ebrelayer/contract/Peggy.sol:102-109 | An empty ledger |
| Erc20.ERC20.InternalTransfer | cmd/ebrelayer/contract/Peggy.sol:221-227 | Subtract, then add; a failed addition undoes the subtraction |
| Erc20.ERC20.Call | cmd/ebrelayer/contract/Peggy.sol:142-270 | Every entry point agrees with the ledger on values, and a revert leaves the state as it was |
| Erc20.ERC20.Approve | cmd/ebrelayer/contract/Peggy.sol:156-162 | Sets the allowance unless the spender is the zero address |
| Erc20.ERC20.TransferFrom | cmd/ebrelayer/contract/Peggy.sol:172-177 | Spends the allowance and moves the value, or neither |
| Erc20.ERC20.IncreaseAllowance | cmd/ebrelayer/contract/Peggy.sol:189-195 | Raises the allowance unless the sum overflows |
| Erc20.ERC20.DecreaseAllowance | cmd/ebrelayer/contract/Peggy.sol:207-213 | Lowers the allowance unless it is too small |
| Erc20.ERC20.InternalMint | cmd/ebrelayer/contract/Peggy.sol:236-242 | Raises supply and balance together, or neither |
| Erc20.ERC20.InternalBurn | cmd/ebrelayer/contract/Peggy.sol:250-256 | Lowers supply and balance together, or neither |
| Erc20.ERC20.BurnFrom | cmd/ebrelayer/contract/Peggy.sol:266-270 | Spends the allowance and burns, or neither |
| ItemKeys.ItemKeyInjective | ethereum-contracts/contracts/Processor.sol:91-99 | The packed fields, recipient of any length included, are determined by the key |
| ItemKeys.PackedLayout | ethereum-contracts/contracts/Processor.sol:91-99 | The hashed bytes are sender, recipient, token, amount and nonce in this order, the numbers most significant byte first |
| ItemKeys.BigEndianInjective | ethereum-contracts/contracts/Processor.sol:92-98 | Fixed-width words determine their numbers |
| Escrow.LockEffect | ethereum-contracts/contracts/Peggy.sol:95-132 | In a reachable state a lock uses a fresh key and nonce, adds exactly one locked item and event, and raises the balance by its amount |
| Escrow.CompleteEffect | ethereum-contracts/contracts/Processor.sol:119-145 | A release clears the flag of a locked item, changes no other item, and lowers the balance by its amount |
| Escrow.OutsideEffect | ethereum-contracts/contracts/Peggy.sol:12-16 | A transaction that does not call Peggy leaves its state alone and cannot lower its balances |
| Escrow.StepKeepsInv | ethereum-contracts/contracts/Peggy.sol:95-205 | Every transaction keeps tokens balanced, Peggy's allowances at 0, and each item under its own key |
| EscrowRuns.Solvency | ethereum-contracts/contracts/Processor.sol:119-145 | On every run, for ether and each token, Peggy's balance equals its locked items plus the initial balance and direct donations, which are never negative |
| EscrowRuns.CoveredAtTransfer | ethereum-contracts/contracts/Processor.sol:134-142 | When a release makes its outgoing transfer the flag is already cleared, the transfer succeeds, and before and after it the balance covers all items still locked |
| EscrowRuns.LockedIsDeliverable | ethereum-contracts/contracts/Processor.sol:48-61 | In every reachable state the delivery guard holds for every locked item |
| EscrowRuns.LockedExactly | ethereum-contracts/contracts/Peggy.sol:115-202 | The item of a lock event has that event's fields and is locked if and only if no release of it was logged |
| Payments.LockPays | ethereum-contracts/contracts/Peggy.sol:106-120 | On every run a successful lock moves exactly its amount from the sender to Peggy in its token, no other holding or allowance changes, and a token lock uses up that allowance |
| Payments.WithdrawEnabled | ethereum-contracts/contracts/Peggy.sol:179-205 | In every reachable state, paused or not, the original sender's withdrawal of a locked item succeeds: its amount moves from Peggy to that sender, no other holding, allowance, item or flag changes, and the event is logged |
| Payments.UnlockEnabled | ethereum-contracts/contracts/Peggy.sol:143-168 | The same of the relayer's unlock: the original sender is paid, not the relayer |
| Payments.EtherConserved | ethereum-contracts/contracts/Processor.sol:134-142 | On every run the ether of all accounts together is what it was at the start |
| Payments.BystanderKeeps | ethereum-contracts/contracts/Peggy.sol:95-205 | No transaction of someone else lowers what an account holds, in ether or in a token of which it allowed nothing |
| Payments.EtherTransferExactly | ethereum-contracts/contracts/Peggy.sol:95-112 | Peggy takes no ether outside a lock except by force; every other transfer of ether succeeds exactly when the sender holds it, and moves exactly that |
| Payments.PauseExactly | ethereum-contracts/contracts/Peggy.sol:246-253 | The relayer's pause clears the flag of an active contract and logs it, changes nothing else, and does nothing to a paused one |
| Payments.ActivateExactly | ethereum-contracts/contracts/Peggy.sol:258-265 | The mirrored law for the activation |
| Payments.PausingRevertsExactly | ethereum-contracts/contracts/Peggy.sol:246-265 | Both calls revert if and only if the caller is not the relayer or the flag already has that value |
| Payments.PausedUntilActivated | ethereum-contracts/contracts/Peggy.sol:68-75 | After a pause, until the relayer activates again, no lock succeeds and no item is added |
| Payments.FlagFollowsLog | ethereum-contracts/contracts/Peggy.sol:246-265 | On every run the contract is active if and only if the last of its pausing events is an activation |
| EscrowRuns.ReleaseSucceedsExactly | ethereum-contracts/contracts/Peggy.sol:143-205 | A release succeeds if and only if the item is locked and the caller is the relayer to unlock, or the original sender to withdraw |
| EscrowRuns.LockSucceedsExactly | ethereum-contracts/contracts/Peggy.sol:95-112 | A lock succeeds if and only if locking is active, a nonce is left, and the funds are there |
| EscrowRuns.OnlyRelayerPauses | ethereum-contracts/contracts/Peggy.sol:246-265 | Only the relayer's pause and activate calls change the active flag |
| EscrowRuns.DepositsAccounted | ethereum-contracts/contracts/Peggy.sol:115-202 | For each depositor and token: deposited is still locked plus returned |
| EscrowRuns.LogRefinesState | ethereum-contracts/contracts/Peggy.sol:115-202 | Replaying the log rebuilds the items and their flags; lock nonces are 1, 2, 3 and so on; each item is released at most once, after its lock, to its sender with the same token, amount and nonce |
| EscrowRuns.ItemsNeverChange | ethereum-contracts/contracts/Processor.sol:101-135 | No item is overwritten; only its flag changes, and only from locked to released |
| EscrowRuns.LockNoncesIncrease | ethereum-contracts/contracts/Processor.sol:63-89 | Lock events carry strictly increasing nonces |
| EscrowRuns.StepExtendsLog | ethereum-contracts/contracts/Peggy.sol:122-202 | Transactions only append to the log |
| PeggyContract.Peggy.constructor | ethereum-contracts/contracts/Peggy.sol:80-86 | Active, nonce 0, no items, one activation event |
| PeggyContract.Peggy.Create | ethereum-contracts/contracts/Processor.sol:80-111 | The next nonce and a locked item under the key of its fields |
| PeggyContract.Peggy.CollectFunds | ethereum-contracts/contracts/Peggy.sol:107-112 | Takes the funds as the machine does, for which `Payments.LockPays` states who pays whom |
| PeggyContract.Peggy.Lock | ethereum-contracts/contracts/Peggy.sol:95-132 | The contract object does what the escrow machine says, and a revert leaves everything as it was |
| PeggyContract.Peggy.CompleteItem | ethereum-contracts/contracts/Processor.sol:119-145 | Clears the flag before the transfer, and a failed transfer restores it |
| PeggyContract.Peggy.Unlock | ethereum-contracts/contracts/Peggy.sol:143-168 | Release by the relayer as in the machine, for which `Payments.UnlockEnabled` states who is paid |
| PeggyContract.Peggy.Withdraw | ethereum-contracts/contracts/Peggy.sol:179-205 | Release by the original sender as in the machine, for which `Payments.WithdrawEnabled` states who is paid |
| PeggyContract.Peggy.PauseLocking | ethereum-contracts/contracts/Peggy.sol:246-253 | Pauses as the machine does, for which `Payments.PauseExactly` states the whole new state |
| PeggyContract.Peggy.ActivateLocking | ethereum-contracts/contracts/Peggy.sol:258-265 | Activates as the machine does, for which `Payments.ActivateExactly` states the whole new state |

## Left out

- The relayer's event loop, websocket client, ABI loading, signing and broadcast: network and foreign calls. An honest
  relayer is a step that sends the payload of an emitted lock.
- The command line, REST routes, app wiring, genesis conversion and export: plumbing around the SDK.
- The SDK itself (staking, bank, key-value store, amino, bech32): a snapshot, a coin map, a map of records and a text form.
  The binary encoding of a record is the identity; the JSON texts inside the record are modelled.
- IEEE 754 rounding of the two ratios: they are compared exactly.
- The handler's unknown-message branch, the querier's path dispatch and its parameter and response encoding.
- JSON numbers and booleans, surrogate pairs, case-insensitive field names, coins with missing fields, and the sorted key
  order of printed maps (the round trip is proved for every order). A nil coin list and an empty one are the same list.
- Gas, the time in pause events, the unused `ids` mapping, the view functions, Migrations.sol, recipients that reject
  ether, and tokens with other code than the one shown.
- Transfer and Approval events of the token.
- The inheritance between Peggy and Processor: one class holds the fields of both. `msg.sender` and `msg.value` are
  parameters, and the delivery and lock guards that a release checks twice are checked once.
- BridgeRuns.Projection: takes a bank whose acceptance of a deposit does not depend on the balances. A refused deposit
  discards the vote that caused it, so for other banks a prophecy is not promised to be independent of the others.
- Liveness.RelayedLockIsMinted: speaks of a lock that has its own prophecy; `OwnProphecyExactly` says which do.
