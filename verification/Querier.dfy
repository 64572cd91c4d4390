/** x/ethbridge/querier/querier.go: answering a query with the claims of one prophecy. */
module Querier {
  import opened Wrappers
  import opened Addresses
  import opened Consensus
  import opened BridgeClaims
  import opened BridgeMachine
  import opened BridgeRuns
  import opened Prophecies
  import opened OracleKeeper

  datatype QueryError = NotFound | Unreadable

  datatype Response = Response(id: string, status: Status, claims: seq<EthBridgeClaim>)

  /** One entry of the validator index, read back as a bridge claim. */
  function ReadEntry(
    codec: AddressCodec, nonce: int, sender: string, key: string, text: string): Option<EthBridgeClaim> {
    match codec.valParse(key)
    case None => None
    case Some(v) => CreateEthClaimFromOracleString(codec, nonce, sender, v, text)
  }

  /** The claims are the entries with these keys, each once, in the order in which the keys were visited. */
  ghost predicate Lists(
    codec: AddressCodec, nonce: int, sender: string, entries: map<string, string>, keys: set<string>,
    order: seq<string>, claims: seq<EthBridgeClaim>)
  {
    && |order| == |claims|
    && (forall i, j :: 0 <= i < j < |order| ==> order[i] != order[j])
    && (forall k :: k in order <==> k in keys)
    && (forall i :: 0 <= i < |order| ==>
          order[i] in entries && ReadEntry(codec, nonce, sender, order[i], entries[order[i]]) == Some(claims[i]))
  }

  lemma ListsNext(
    codec: AddressCodec, nonce: int, sender: string, entries: map<string, string>, keys: set<string>,
    order: seq<string>, claims: seq<EthBridgeClaim>, k: string, claim: EthBridgeClaim)
    requires Lists(codec, nonce, sender, entries, keys, order, claims)
    requires k in entries && k !in keys && ReadEntry(codec, nonce, sender, k, entries[k]) == Some(claim)
    ensures Lists(codec, nonce, sender, entries, keys + {k}, order + [k], claims + [claim])
  {
  }

  method MapOracleClaimsToEthBridgeClaims(codec: AddressCodec, nonce: int, sender: string, entries: map<string, string>)
      returns (r: Result<seq<EthBridgeClaim>, QueryError>, ghost order: seq<string>)
    ensures r.Ok? ==> Lists(codec, nonce, sender, entries, entries.Keys, order, r.value)
    ensures r.Err? ==>
              r.error == Unreadable &&
              exists k :: k in entries && ReadEntry(codec, nonce, sender, k, entries[k]) == None
  {
    var mappedClaims := new EthBridgeClaim[|entries|](_ => EthBridgeClaim(0, "", [], [], []));
    order := [];
    var i := 0;
    var visited: set<string> := {};
    while visited != entries.Keys
      invariant visited <= entries.Keys && i == |visited| <= mappedClaims.Length == |entries.Keys|
      invariant Lists(codec, nonce, sender, entries, visited, order, mappedClaims[..i])
      decreases entries.Keys - visited
    {
      var k := UnvisitedKey(entries.Keys, visited);
      var mappedClaim := ReadEntry(codec, nonce, sender, k, entries[k]);
      if mappedClaim == None {
        return Err(Unreadable), order;
      }
      ListsNext(codec, nonce, sender, entries, visited, order, mappedClaims[..i], k, mappedClaim.value);
      ghost var done := mappedClaims[..i];
      mappedClaims[i] := mappedClaim.value;
      assert mappedClaims[..i + 1] == done + [mappedClaim.value];
      order := order + [k];
      i := i + 1;
      visited := visited + {k};
    }
    assert mappedClaims[..] == mappedClaims[..i];
    r := Ok(mappedClaims[..]);
  }

  /** Any key not visited yet: the map's iteration order is arbitrary. */
  method UnvisitedKey(keys: set<string>, visited: set<string>) returns (k: string)
    requires visited <= keys && visited != keys
    ensures k in keys && k !in visited && |visited| < |keys|
  {
    var left := keys - visited;
    assert keys == visited + left;
    k :| k in left;
  }

  /** The query rebuilds the id from its parameters and reads the store. */
  method QueryEthProphecy(keeper: Keeper, nonce: int, ethereumSender: string)
      returns (r: Result<Response, QueryError>, ghost order: seq<string>, ghost entries: map<string, string>)
    requires keeper.Valid()
    ensures OracleId(nonce, ethereumSender) !in keeper.polls ==> r == Err(NotFound)
    ensures OracleId(nonce, ethereumSender) in keeper.polls && r.Ok? ==>
              var poll := keeper.polls[OracleId(nonce, ethereumSender)];
              && r.value.id == OracleId(nonce, ethereumSender) && r.value.status == poll.status
              && Indexed(keeper.codec, entries, poll.votes) && [] !in poll.votes
              && Lists(keeper.codec, nonce, ethereumSender, entries, entries.Keys, order, r.value.claims)
    ensures OracleId(nonce, ethereumSender) in keeper.polls && r.Err? ==>
              r.error == Unreadable &&
              var votes := keeper.polls[OracleId(nonce, ethereumSender)].votes;
              exists v :: v in votes && CreateOracleClaimFromOracleString(keeper.codec, votes[v]) == None
  {
    order, entries := [], map[];
    var id := OracleId(nonce, ethereumSender);
    var found := keeper.GetProphecy(id);
    if found.Err? {
      return Err(NotFound), order, entries;
    }
    var prophecy := found.value;
    entries := prophecy.validatorClaims;
    var claims;
    claims, order := MapOracleClaimsToEthBridgeClaims(keeper.codec, nonce, ethereumSender, prophecy.validatorClaims);
    if claims.Err? {
      ghost var k :| k in entries && ReadEntry(keeper.codec, nonce, ethereumSender, k, entries[k]) == None;
      UnreadableEntry(keeper.codec, nonce, ethereumSender, entries, keeper.polls[id].votes, k);
      return Err(claims.error), order, entries;
    }
    return Ok(Response(prophecy.id, prophecy.status, claims.value)), order, entries;
  }

  lemma UnreadableEntry(
    codec: AddressCodec, nonce: int, sender: string, entries: map<string, string>, votes: Votes, k: string)
    requires Indexed(codec, entries, votes) && [] !in votes
    requires k in entries && ReadEntry(codec, nonce, sender, k, entries[k]) == None
    ensures exists v :: v in votes && CreateOracleClaimFromOracleString(codec, votes[v]) == None
  {
    var v :| v in votes && codec.valText(v) == k;
    assert codec.valParse(k) == Some(v);
    assert entries[k] == votes[v];
  }

  /** Each listed claim names the validator of its key. */
  lemma ListedValidator(
    codec: AddressCodec, nonce: int, sender: string, entries: map<string, string>, votes: Votes,
    order: seq<string>, claims: seq<EthBridgeClaim>, i: nat)
    requires Indexed(codec, entries, votes) && [] !in votes
    requires Lists(codec, nonce, sender, entries, entries.Keys, order, claims) && i < |claims|
    ensures claims[i].validator in votes && codec.valText(claims[i].validator) == order[i]
    ensures CreateEthClaimFromOracleString(codec, nonce, sender, claims[i].validator, votes[claims[i].validator]) ==
              Some(claims[i])
  {
    assert order[i] in order;
    var w :| w in votes && codec.valText(w) == order[i];
    assert codec.valParse(order[i]) == Some(w);
  }

  /** In a listing, each voter has exactly one claim. */
  lemma OneClaimPerValidator(
    codec: AddressCodec, nonce: int, sender: string, entries: map<string, string>, votes: Votes,
    order: seq<string>, claims: seq<EthBridgeClaim>, v: Bytes) returns (i: nat)
    requires Indexed(codec, entries, votes) && [] !in votes && v in votes
    requires Lists(codec, nonce, sender, entries, entries.Keys, order, claims)
    ensures i < |claims| && claims[i].validator == v
    ensures forall j :: 0 <= j < |claims| && claims[j].validator == v ==> j == i
    ensures CreateEthClaimFromOracleString(codec, nonce, sender, v, votes[v]) == Some(claims[i])
  {
    assert codec.valText(v) in order;
    i :| i < |order| && order[i] == codec.valText(v);
    ListedValidator(codec, nonce, sender, entries, votes, order, claims, i);
    TextInjective(codec, v, claims[i].validator);
    forall j | 0 <= j < |claims| && claims[j].validator == v ensures j == i {
      ListedValidator(codec, nonce, sender, entries, votes, order, claims, j);
    }
  }

  /** Converting a bridge claim to its oracle form and back returns the claim. */
  lemma EthClaimRoundTrip(codec: AddressCodec, claim: EthBridgeClaim)
    requires claim.cosmosReceiver != []
    ensures
      var (_, validator, text) := CreateOracleClaimFromEthClaim(codec, claim);
      CreateEthClaimFromOracleString(codec, claim.nonce, claim.ethereumSender, validator, text) == Some(claim)
  {
    ClaimRoundTrip(codec, OracleClaim(claim.cosmosReceiver, claim.amount));
  }

  /**
   On every run, a query for a nonce and sender returns, for each validator that voted, exactly the message it
   submitted.
   */
  lemma QueryReturnsMessages(
    env: Env, states: seq<Chain>, events: seq<Event>, n: nat, nonce: int, sender: string,
    entries: map<string, string>, order: seq<string>, claims: seq<EthBridgeClaim>, v: Bytes) returns (i: nat, j: nat)
    requires Trace(env, states, events) && n < |states| && 0 <= nonce && IsValidEthAddress(sender)
    requires OracleId(nonce, sender) in states[n].polls
    requires var votes := states[n].polls[OracleId(nonce, sender)].votes;
             v in votes && [] !in votes && Indexed(env.codec, entries, votes)
    requires Lists(env.codec, nonce, sender, entries, entries.Keys, order, claims)
    ensures i < |claims| && claims[i].validator == v
    ensures forall k :: 0 <= k < |claims| && claims[k].validator == v ==> k == i
    ensures j < n && events[j] == Deliver(claims[i])
  {
    var id := OracleId(nonce, sender);
    var votes := states[n].polls[id].votes;
    i := OneClaimPerValidator(env.codec, nonce, sender, entries, votes, order, claims, v);
    j := VotesWereCast(env, states, events, n, id, v);
    var msg := events[j].msg;
    OracleIdInjective(nonce, sender, msg.nonce, msg.ethereumSender);
    EthClaimRoundTrip(env.codec, msg);
  }
}
