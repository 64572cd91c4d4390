/** x/oracle/keeper/keeper.go: the prophecy store and ProcessClaim. */
module OracleKeeper {
  import opened Wrappers
  import opened Addresses
  import opened Consensus
  import opened Voting
  import opened BridgeMachine
  import opened Prophecies

  /** A prophecy whose two indexes hold exactly the votes of the poll. */
  ghost predicate Holds(codec: AddressCodec, id: string, p: ProphecyData, poll: Poll) {
    p.id == id && id != "" && p.status == poll.status && poll.votes != map[] && Agree(codec, p, poll.votes)
  }

  /** The stored record reads back as such a prophecy. */
  ghost predicate RecordHolds(codec: AddressCodec, id: string, db: DBProphecy, poll: Poll) {
    exists p :: DeserializeFromDB(codec, db) == Some(p) && Holds(codec, id, p, poll)
  }

  ghost predicate StoreHolds(codec: AddressCodec, store: map<string, DBProphecy>, polls: Polls) {
    && store.Keys == polls.Keys
    && forall id :: id in store ==> RecordHolds(codec, id, store[id], polls[id])
  }

  /** What the staking keeper stores about a validator. */
  datatype BondStatus = Unbonded | Unbonding | Bonded

  /** The bonded validators of a snapshot are those stored with the status Bonded. */
  ghost predicate BondedAre(validators: map<Bytes, BondStatus>, snap: Snapshot) {
    forall v :: v in snap.bonded <==> v in validators && validators[v] == Bonded
  }

  class Keeper {
    const codec: AddressCodec
    const threshold: Threshold
    var store: map<string, DBProphecy>
    /** The staking keeper's state: its validators, and the powers of those that are bonded. */
    var validators: map<Bytes, BondStatus>
    var staking: Snapshot
    /** The votes and status that each stored prophecy holds. */
    ghost var polls: Polls

    ghost predicate Valid()
      reads this
    {
      threshold.Valid() && staking.Valid() && BondedAre(validators, staking) && StoreHolds(codec, store, polls)
    }

    constructor (codec: AddressCodec, threshold: Threshold, validators: map<Bytes, BondStatus>, staking: Snapshot)
      requires threshold.Valid() && staking.Valid() && BondedAre(validators, staking)
      ensures Valid() && polls == map[]
      ensures this.codec == codec && this.threshold == threshold && this.staking == staking
    {
      this.codec, this.threshold, this.validators, this.staking := codec, threshold, validators, staking;
      store, polls := map[], map[];
    }

    /** NewKeeper accepts exactly the thresholds above 0 and up to 1. */
    static method NewKeeper(
      codec: AddressCodec, threshold: Threshold, validators: map<Bytes, BondStatus>, staking: Snapshot)
        returns (r: Result<Keeper, OracleError>)
      requires 0 < threshold.den && staking.Valid() && BondedAre(validators, staking)
      ensures r.Ok? <==> 0 < threshold.num <= threshold.den
      ensures r.Err? ==> r.error == MinimumConsensusNeededInvalid
      ensures r.Ok? ==>
                fresh(r.value) && r.value.Valid() && r.value.polls == map[] &&
                r.value.codec == codec && r.value.threshold == threshold && r.value.staking == staking
    {
      if threshold.num <= 0 || threshold.num > threshold.den {
        return Err(MinimumConsensusNeededInvalid);
      }
      var keeper := new Keeper(codec, threshold, validators, staking);
      return Ok(keeper);
    }

    method GetProphecy(id: string) returns (r: Result<Prophecy, OracleError>)
      requires Valid()
      ensures id == "" ==> r == Err(InvalidIdentifier)
      ensures id != "" && id !in polls ==> r == Err(ProphecyNotFound)
      ensures id in polls ==>
                r.Ok? && fresh(r.value) && r.value.id == id && r.value.status == polls[id].status &&
                Agree(codec, r.value.Data(), polls[id].votes)
    {
      if id == "" {
        return Err(InvalidIdentifier);
      }
      if id !in store {
        return Err(ProphecyNotFound);
      }
      assert RecordHolds(codec, id, store[id], polls[id]);
      match DeserializeFromDB(codec, store[id]) {
        case None =>
          return Err(InternalDB);
        case Some(data) =>
          var prophecy := new Prophecy(data);
          return Ok(prophecy);
      }
    }

    method SaveProphecy(prophecy: Prophecy, ghost votes: Votes) returns (err: Option<OracleError>)
      requires Valid() && Agree(codec, prophecy.Data(), votes)
      modifies this`store, this`polls
      ensures Valid()
      ensures err ==
                if prophecy.id == "" then Some(InvalidIdentifier) else if votes == map[] then Some(NoClaims) else None
      ensures polls == if err == None then old(polls)[prophecy.id := Poll(votes, prophecy.status)] else old(polls)
    {
      if prophecy.id == "" {
        return Some(InvalidIdentifier);
      }
      NoVotesNoClaims(prophecy.claimValidators, votes);
      if prophecy.claimValidators == map[] {
        return Some(NoClaims);
      }
      VotersNonEmpty(codec, prophecy.Data(), votes);
      var db := prophecy.SerializeForDB(codec);
      assert Holds(codec, prophecy.id, prophecy.Data(), Poll(votes, prophecy.status));
      PutRecord(prophecy.id, db, Poll(votes, prophecy.status));
      return None;
    }

    /** Write one record over whatever the store holds under its id. */
    method PutRecord(id: string, db: DBProphecy, ghost poll: Poll)
      requires StoreHolds(codec, store, polls) && RecordHolds(codec, id, db, poll)
      modifies this`store, this`polls
      ensures StoreHolds(codec, store, polls) && polls == old(polls)[id := poll]
    {
      StoreUpdate(codec, store, polls, id, db, poll);
      store := store[id := db];
      polls := polls[id := poll];
    }

    /** Active are exactly the validators whose power the tally would count: found by the lookup, and bonded. */
    method CheckActiveValidator(validator: Bytes) returns (active: bool)
      requires BondedAre(validators, staking)
      ensures active <==> validator in staking.bonded
      ensures !active ==> staking.Power(validator) == 0
    {
      if validator !in validators {
        return false;
      }
      var bondStatus := validators[validator];
      if bondStatus != Bonded {
        return false;
      }
      return true;
    }

    /** Set the status from the tally. */
    method ProcessCompletion(prophecy: Prophecy, ghost votes: Votes)
      requires threshold.Valid() && staking.Valid()
      requires Agree(codec, prophecy.Data(), votes) && votes != map[]
      modifies prophecy`status
      ensures Decides(threshold, staking, votes, old(prophecy.status), prophecy.status)
    {
      prophecy.status := CountAndJudge(prophecy, votes);
    }

    method CountAndJudge(prophecy: Prophecy, ghost votes: Votes) returns (status: Status)
      requires threshold.Valid() && staking.Valid()
      requires Agree(codec, prophecy.Data(), votes) && votes != map[]
      ensures Decides(threshold, staking, votes, prophecy.status, status)
    {
      var highestClaim, highestClaimPower, totalClaimsPower := prophecy.FindHighestClaim(codec, staking, votes);
      status := Judge(highestClaim, highestClaimPower, totalClaimsPower, prophecy.status, votes);
    }

    /** The two comparisons of processCompletion, in its 64-bit arithmetic; the ratios are compared exactly. */
    method Judge(
      highestClaim: string, highestClaimPower: int64, totalClaimsPower: int64, prior: Status, ghost votes: Votes)
        returns (status: Status)
      requires threshold.Valid() && staking.Valid()
      requires highestClaimPower as int == Support(staking, votes, highestClaim)
      requires totalClaimsPower as int == Claimed(staking, votes)
      ensures status == Outcome(threshold, staking, votes, highestClaim, prior)
    {
      SupportBounds(staking, votes, highestClaim);
      var totalPower := staking.totalPower as int64;
      var remainingPossibleClaimPower := totalPower - totalClaimsPower;
      var highestPossibleClaimPower := highestClaimPower + remainingPossibleClaimPower;
      status := prior;
      if threshold.Reached(highestClaimPower as int, totalPower as int) {
        status := Status(Success, highestClaim);
      } else if threshold.NotAbove(highestPossibleClaimPower as int, totalPower as int) {
        status := prior.(text := Failed);
      }
    }

    /** One validator's claim on one prophecy: refused without any change, or counted, tallied and stored. */
    method ProcessClaim(id: string, validator: Bytes, claim: string) returns (r: Result<Status, OracleError>)
      requires Valid()
      modifies this`store, this`polls
      ensures Valid()
      ensures Processes(threshold, staking, old(polls), id, Ballot(validator, claim), r, polls)
    {
      var found := Admit(id, validator, claim);
      if found.Err? {
        return Err(found.error);
      }
      r := CountClaim(found.value, validator, claim, PollOf(polls, id).votes);
    }

    /** The checks at the beginning of ProcessClaim, with the first reason to refuse. */
    method Admit(id: string, validator: Bytes, claim: string) returns (r: Result<Prophecy, OracleError>)
      requires Valid()
      ensures match Refusal(staking, polls, id, Ballot(validator, claim))
              case Some(e) => r == Err(e)
              case None =>
                r.Ok? && fresh(r.value) && r.value.id == id && r.value.status == PollOf(polls, id).status &&
                Agree(codec, r.value.Data(), PollOf(polls, id).votes)
    {
      var active := CheckActiveValidator(validator);
      if !active {
        return Err(InvalidValidator);
      }
      if claim == "" {
        return Err(InvalidClaim);
      }
      r := FindOpen(id, validator);
    }

    /** A prophecy takes claims while it is pending, and one from each validator. */
    method CheckOpen(prophecy: Prophecy, validator: Bytes, ghost votes: Votes) returns (err: Option<OracleError>)
      requires Agree(codec, prophecy.Data(), votes) && validator != []
      ensures err ==
                if prophecy.status.text != Pending then Some(ProphecyFinalized)
                else if validator in votes then Some(DuplicateMessage) else None
    {
      if prophecy.status.text == Success || prophecy.status.text == Failed {
        return Some(ProphecyFinalized);
      }
      var text := codec.valText(validator);
      ClaimedMeans(codec, prophecy.Data(), votes, validator);
      if text in prophecy.validatorClaims && prophecy.validatorClaims[text] != "" {
        return Some(DuplicateMessage);
      }
      return None;
    }

    /** The stored prophecy if it is still open to this validator, or a new one. */
    method FindOpen(id: string, validator: Bytes) returns (r: Result<Prophecy, OracleError>)
      requires Valid() && validator != []
      ensures match Closed(polls, id, validator)
              case Some(e) => r == Err(e)
              case None =>
                r.Ok? && fresh(r.value) && r.value.id == id && r.value.status == PollOf(polls, id).status &&
                Agree(codec, r.value.Data(), PollOf(polls, id).votes)
    {
      var found := GetProphecy(id);
      if found.Ok? {
        var err := CheckOpen(found.value, validator, polls[id].votes);
        return if err.Some? then Err(err.value) else found;
      } else {
        if found.error != ProphecyNotFound {
          return Err(found.error);
        }
        var prophecy := new Prophecy(ProphecyData(id, NEW_STATUS, map[], map[]));
        NewProphecyAgrees(codec, prophecy.Data());
        return Ok(prophecy);
      }
    }

    /** The common end of both branches of ProcessClaim. */
    method CountClaim(prophecy: Prophecy, validator: Bytes, claim: string, ghost votes: Votes)
        returns (r: Result<Status, OracleError>)
      requires Valid() && Agree(codec, prophecy.Data(), votes)
      requires validator != [] && validator !in votes && claim != ""
      modifies this`store, this`polls, prophecy
      ensures Valid()
      ensures prophecy.id == "" ==> r == Err(InvalidIdentifier) && polls == old(polls)
      ensures prophecy.id != "" ==>
                r.Ok? &&
                Decides(threshold, staking, votes[validator := claim], old(prophecy.status), r.value) &&
                polls == old(polls)[prophecy.id := Poll(votes[validator := claim], r.value)]
      ensures prophecy.id == old(prophecy.id)
    {
      WithClaimAgrees(codec, prophecy.Data(), votes, validator, claim);
      prophecy.AddClaim(codec, validator, claim);
      ghost var votes' := votes[validator := claim];
      assert votes'[validator] == claim;
      ProcessCompletion(prophecy, votes');
      var err := SaveProphecy(prophecy, votes');
      if err.Some? {
        return Err(err.value);
      }
      return Ok(prophecy.status);
    }
  }

  lemma ClaimedMeans(codec: AddressCodec, p: ProphecyData, votes: Votes, v: Bytes)
    requires Agree(codec, p, votes) && v != []
    ensures (codec.valText(v) in p.validatorClaims && p.validatorClaims[codec.valText(v)] != "") <==> v in votes
  {
    IndexAgreement(codec, p, votes, v, "");
  }

  lemma NewProphecyAgrees(codec: AddressCodec, p: ProphecyData)
    requires p.claimValidators == map[] && p.validatorClaims == map[]
    ensures Agree(codec, p, map[])
  {
  }

  /** Writing one record keeps all the others. */
  lemma StoreUpdate(
    codec: AddressCodec, store: map<string, DBProphecy>, polls: Polls, id: string, db: DBProphecy, poll: Poll)
    requires StoreHolds(codec, store, polls) && RecordHolds(codec, id, db, poll)
    ensures StoreHolds(codec, store[id := db], polls[id := poll])
  {
    var store', polls' := store[id := db], polls[id := poll];
    assert store'.Keys == polls'.Keys;
    forall k | k in store' ensures RecordHolds(codec, k, store'[k], polls'[k]) {
      if k != id {
        OtherRecord(codec, store, polls, k);
      }
    }
  }

  lemma OtherRecord(codec: AddressCodec, store: map<string, DBProphecy>, polls: Polls, k: string)
    requires StoreHolds(codec, store, polls) && k in store
    ensures RecordHolds(codec, k, store[k], polls[k])
  {
  }

  lemma NoVotesNoClaims(lists: map<string, seq<Bytes>>, votes: Votes)
    requires Listed(lists, votes)
    ensures lists == map[] <==> votes == map[]
  {
    if votes != map[] {
      var v :| v in votes;
      assert votes[v] in votes.Values;
    }
  }

  lemma VotersNonEmpty(codec: AddressCodec, p: ProphecyData, votes: Votes)
    requires Agree(codec, p, votes)
    ensures AddressesNonEmpty(p.claimValidators)
  {
    forall c, i | c in p.claimValidators && 0 <= i < |p.claimValidators[c]|
      ensures p.claimValidators[c][i] != []
    {
      assert p.claimValidators[c][i] in p.claimValidators[c];
    }
  }
}
