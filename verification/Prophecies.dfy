/** x/oracle/types/prophecy.go: the prophecy with its two indexes, its tally, and its database form. */
module Prophecies {
  import opened Wrappers
  import opened Addresses
  import opened Sums
  import opened Json
  import opened Consensus

  newtype int64 = n: int | -0x8000_0000_0000_0000 <= n < 0x8000_0000_0000_0000

  datatype ProphecyData = ProphecyData(
    id: string,
    status: Status,
    claimValidators: map<string, seq<Bytes>>,
    validatorClaims: map<string, string>)

  /** The maps as JSON text; the remaining fields as they are. */
  datatype DBProphecy = DBProphecy(id: string, status: Status, claimValidators: string, validatorClaims: string)

  // ---------------------------------------------------------------- the two indexes

  ghost predicate Distinct(vs: seq<Bytes>) {
    forall i, j :: 0 <= i < j < |vs| ==> vs[i] != vs[j]
  }

  /** The index from validator address text to claim holds exactly these votes. */
  ghost predicate Indexed(codec: AddressCodec, claims: map<string, string>, votes: Votes) {
    && (forall v :: v in votes ==> codec.valText(v) in claims && claims[codec.valText(v)] == votes[v])
    && (forall k :: k in claims ==> exists v :: v in votes && codec.valText(v) == k)
  }

  /** The index from claim to validators holds exactly these votes, each validator once. */
  ghost predicate Listed(lists: map<string, seq<Bytes>>, votes: Votes) {
    && lists.Keys == votes.Values
    && (forall c :: c in lists ==> Distinct(lists[c]))
    && (forall c, v :: c in lists ==> (v in lists[c] <==> v in votes && votes[v] == c))
  }

  /** Both indexes hold exactly these votes. */
  ghost predicate Agree(codec: AddressCodec, p: ProphecyData, votes: Votes) {
    && [] !in votes && "" !in votes.Values
    && Indexed(codec, p.validatorClaims, votes)
    && Listed(p.claimValidators, votes)
  }

  lemma TextInjective(codec: AddressCodec, v: Bytes, w: Bytes)
    requires v != [] && w != [] && codec.valText(v) == codec.valText(w)
    ensures v == w
  {
    assert codec.valParse(codec.valText(v)) == Some(v);
    assert codec.valParse(codec.valText(w)) == Some(w);
  }

  /**
   The two indexes are inverse to each other, each validator is listed once, and an empty stored claim means no
   claim.
   */
  lemma IndexAgreement(codec: AddressCodec, p: ProphecyData, votes: Votes, v: Bytes, c: string)
    requires Agree(codec, p, votes) && v != []
    ensures c in p.claimValidators && v in p.claimValidators[c] <==>
              codec.valText(v) in p.validatorClaims && p.validatorClaims[codec.valText(v)] == c
    ensures c in p.claimValidators ==> Distinct(p.claimValidators[c])
    ensures codec.valText(v) in p.validatorClaims <==> v in votes
    ensures "" !in p.validatorClaims.Values
  {
    if codec.valText(v) in p.validatorClaims {
      var w :| w in votes && codec.valText(w) == codec.valText(v);
      TextInjective(codec, v, w);
      assert votes[v] in votes.Values;
    }
    forall k | k in p.validatorClaims ensures p.validatorClaims[k] != "" {
      var w :| w in votes && codec.valText(w) == k;
      assert votes[w] in votes.Values;
    }
  }

  /** Two sets of votes held by the same prophecy are the same votes. */
  lemma AgreementDeterminesVotes(codec: AddressCodec, p: ProphecyData, votes: Votes, other: Votes)
    requires Agree(codec, p, votes) && Agree(codec, p, other)
    ensures votes == other
  {
    ListsDetermineVotes(p.claimValidators, votes, other);
  }

  lemma ListsDetermineVotes(lists: map<string, seq<Bytes>>, votes: Votes, other: Votes)
    requires Listed(lists, votes) && Listed(lists, other)
    ensures votes == other
  {
    ListedSubset(lists, votes, other);
    ListedSubset(lists, other, votes);
  }

  lemma ListedSubset(lists: map<string, seq<Bytes>>, votes: Votes, other: Votes)
    requires Listed(lists, votes) && Listed(lists, other)
    ensures forall v :: v in votes ==> v in other && other[v] == votes[v]
  {
    forall v | v in votes ensures v in other && other[v] == votes[v] {
      assert votes[v] in votes.Values;
      assert v in lists[votes[v]];
    }
  }

  function WithClaim(codec: AddressCodec, p: ProphecyData, v: Bytes, c: string): ProphecyData {
    var vs := if c in p.claimValidators then p.claimValidators[c] else [];
    p.(claimValidators := p.claimValidators[c := vs + [v]],
       validatorClaims := p.validatorClaims[codec.valText(v) := c])
  }

  /** Adding a first claim of v to both indexes adds exactly that vote. */
  lemma WithClaimAgrees(codec: AddressCodec, p: ProphecyData, votes: Votes, v: Bytes, c: string)
    requires Agree(codec, p, votes) && v !in votes && v != [] && c != ""
    ensures Agree(codec, WithClaim(codec, p, v, c), votes[v := c])
  {
    WithClaimIndexed(codec, p.validatorClaims, votes, v, c);
    WithClaimListed(p.claimValidators, votes, v, c);
    assert "" !in votes[v := c].Values;
  }

  lemma WithClaimIndexed(codec: AddressCodec, claims: map<string, string>, votes: Votes, v: Bytes, c: string)
    requires Indexed(codec, claims, votes) && v !in votes && v != [] && [] !in votes
    ensures Indexed(codec, claims[codec.valText(v) := c], votes[v := c])
  {
    var claims', votes' := claims[codec.valText(v) := c], votes[v := c];
    forall w | w in votes'
      ensures codec.valText(w) in claims' && claims'[codec.valText(w)] == votes'[w]
    {
      if w != v && codec.valText(w) == codec.valText(v) {
        TextInjective(codec, v, w);
      }
    }
    forall k | k in claims'
      ensures exists w :: w in votes' && codec.valText(w) == k
    {
      if k != codec.valText(v) {
        var w :| w in votes && codec.valText(w) == k;
        assert w in votes';
      } else {
        assert v in votes';
      }
    }
  }

  lemma WithClaimListed(lists: map<string, seq<Bytes>>, votes: Votes, v: Bytes, c: string)
    requires Listed(lists, votes) && v !in votes
    ensures Listed(lists[c := (if c in lists then lists[c] else []) + [v]], votes[v := c])
  {
    var vs := if c in lists then lists[c] else [];
    var lists', votes' := lists[c := vs + [v]], votes[v := c];
    assert v !in vs;
    forall w ensures w in vs <==> w in votes && votes[w] == c {
      if w in votes && votes[w] == c {
        assert votes[w] in votes.Values;
      }
    }
    ValuesAfter(votes, v, c);
    forall d, w | d in lists'
      ensures w in lists'[d] <==> w in votes' && votes'[w] == d
    {
    }
  }

  lemma ValuesAfter(votes: Votes, v: Bytes, c: string)
    requires v !in votes
    ensures votes[v := c].Values == votes.Values + {c}
  {
    var votes' := votes[v := c];
    assert votes'[v] == c;
    forall d | d in votes.Values ensures d in votes'.Values {
      var w :| w in votes && votes[w] == d;
      assert w in votes' && votes'[w] == d;
    }
  }

  // ---------------------------------------------------------------- database form

  function AddressItems(codec: AddressCodec, vs: seq<Bytes>): (items: seq<Json>)
    ensures |items| == |vs|
  {
    if vs == [] then [] else [Str(codec.valText(vs[0]))] + AddressItems(codec, vs[1..])
  }

  function AddressesFromItems(codec: AddressCodec, items: seq<Json>): Option<seq<Bytes>> {
    if items == [] then Some([])
    else if !items[0].Str? then None
    else match (codec.valParse(items[0].text), AddressesFromItems(codec, items[1..]))
      case (Some(v), Some(vs)) => Some([v] + vs)
      case _ => None
  }

  function ClaimsFromMembers(members: seq<Member>): Option<map<string, string>> {
    if members == [] then Some(map[])
    else
      var m := members[|members| - 1];
      match ClaimsFromMembers(members[..|members| - 1])
      case None => None
      case Some(claims) => if m.value.Str? then Some(claims[m.key := m.value.text]) else None
  }

  function ListsFromMembers(codec: AddressCodec, members: seq<Member>): Option<map<string, seq<Bytes>>> {
    if members == [] then Some(map[])
    else
      var m := members[|members| - 1];
      match ListsFromMembers(codec, members[..|members| - 1])
      case None => None
      case Some(lists) =>
        if !m.value.Arr? then None
        else match AddressesFromItems(codec, m.value.items)
          case None => None
          case Some(vs) => Some(lists[m.key := vs])
  }

  function ClaimsFromJson(s: string): Option<map<string, string>> {
    match Parse(s)
    case Some(Obj(members)) => ClaimsFromMembers(members)
    case _ => None
  }

  function ListsFromJson(codec: AddressCodec, s: string): Option<map<string, seq<Bytes>>> {
    match Parse(s)
    case Some(Obj(members)) => ListsFromMembers(codec, members)
    case _ => None
  }

  function DeserializeFromDB(codec: AddressCodec, db: DBProphecy): Option<ProphecyData> {
    match (ListsFromJson(codec, db.claimValidators), ClaimsFromJson(db.validatorClaims))
    case (Some(lists), Some(claims)) => Some(ProphecyData(db.id, db.status, lists, claims))
    case _ => None
  }

  ghost predicate AddressesNonEmpty(lists: map<string, seq<Bytes>>) {
    forall c, i :: c in lists && 0 <= i < |lists[c]| ==> lists[c][i] != []
  }

  lemma {:induction false} AddressItemsRoundTrip(codec: AddressCodec, vs: seq<Bytes>)
    requires forall i :: 0 <= i < |vs| ==> vs[i] != []
    ensures AddressesFromItems(codec, AddressItems(codec, vs)) == Some(vs)
  {
    if vs != [] {
      AddressItemsRoundTrip(codec, vs[1..]);
      assert AddressItems(codec, vs)[1..] == AddressItems(codec, vs[1..]);
      assert codec.valParse(codec.valText(vs[0])) == Some(vs[0]);
      assert [vs[0]] + vs[1..] == vs;
    }
  }

  /** The entries already visited. */
  ghost function Visited<V>(m: map<string, V>, left: set<string>): map<string, V> {
    map k | k in m && k !in left :: m[k]
  }

  /** json.Marshal of the validator index, in whatever order its keys are visited. */
  method MarshalClaims(claims: map<string, string>) returns (s: string)
    ensures ClaimsFromJson(s) == Some(claims)
  {
    var members: seq<Member>, left := [], claims.Keys;
    while left != {}
      invariant left <= claims.Keys
      invariant ClaimsFromMembers(members) == Some(Visited(claims, left))
      decreases left
    {
      var k :| k in left;
      ghost var before := members;
      members := members + [Member(k, Str(claims[k]))];
      assert Visited(claims, left - {k}) == Visited(claims, left)[k := claims[k]];
      left := left - {k};
      assert members[..|members| - 1] == before;
    }
    assert Visited(claims, left) == claims;
    s := Print(Obj(members));
    PrintParses(Obj(members));
  }

  /** json.Marshal of the claim index, in whatever order its keys are visited. */
  method MarshalLists(codec: AddressCodec, lists: map<string, seq<Bytes>>) returns (s: string)
    requires AddressesNonEmpty(lists)
    ensures ListsFromJson(codec, s) == Some(lists)
  {
    var members: seq<Member>, left := [], lists.Keys;
    while left != {}
      invariant left <= lists.Keys
      invariant ListsFromMembers(codec, members) == Some(Visited(lists, left))
      decreases left
    {
      var k :| k in left;
      ghost var before := members;
      AddressItemsRoundTrip(codec, lists[k]);
      members := members + [Member(k, Arr(AddressItems(codec, lists[k])))];
      assert Visited(lists, left - {k}) == Visited(lists, left)[k := lists[k]];
      left := left - {k};
      assert members[..|members| - 1] == before;
    }
    assert Visited(lists, left) == lists;
    s := Print(Obj(members));
    PrintParses(Obj(members));
  }

  // ---------------------------------------------------------------- partial tallies

  /** The votes for claim c by the first n validators of its list. */
  ghost function FirstVotes(votes: Votes, vs: seq<Bytes>, n: nat): Votes
    requires n <= |vs|
  {
    map v | v in votes && v in vs[..n] :: votes[v]
  }

  /** The votes for the claims already visited. */
  ghost function VisitedVotes(votes: Votes, visited: set<string>): Votes {
    map v | v in votes && votes[v] in visited :: votes[v]
  }

  lemma NextVote(snap: Snapshot, votes: Votes, lists: map<string, seq<Bytes>>, c: string, n: nat)
    requires Listed(lists, votes) && c in lists && n < |lists[c]|
    ensures lists[c][n] in votes
    ensures Claimed(snap, FirstVotes(votes, lists[c], n + 1)) ==
              Claimed(snap, FirstVotes(votes, lists[c], n)) + snap.Power(lists[c][n])
    ensures 0 <= Claimed(snap, FirstVotes(votes, lists[c], n + 1)) <= MapSum(snap.bonded)
  {
    var vs := lists[c];
    assert vs[n] in vs;
    assert vs[..n + 1] == vs[..n] + [vs[n]];
    assert FirstVotes(votes, vs, n + 1) == FirstVotes(votes, vs, n)[vs[n] := votes[vs[n]]];
    SupportAdd(snap, FirstVotes(votes, vs, n), vs[n], votes[vs[n]], "");
    SupportBounds(snap, FirstVotes(votes, vs, n + 1), "");
  }

  lemma AllVotes(snap: Snapshot, votes: Votes, lists: map<string, seq<Bytes>>, c: string)
    requires Listed(lists, votes) && c in lists
    ensures Claimed(snap, FirstVotes(votes, lists[c], 0)) == 0
    ensures Claimed(snap, FirstVotes(votes, lists[c], |lists[c]|)) == Support(snap, votes, c)
  {
    var vs := lists[c];
    assert PowerMap(snap, FirstVotes(votes, vs, 0)) == map[];
    assert vs[..|vs|] == vs;
    assert PowerMap(snap, FirstVotes(votes, vs, |vs|)) == SupportMap(snap, votes, c);
  }

  lemma NextClaim(snap: Snapshot, votes: Votes, visited: set<string>, c: string)
    requires c !in visited
    ensures Claimed(snap, VisitedVotes(votes, visited + {c})) ==
              Claimed(snap, VisitedVotes(votes, visited)) + Support(snap, votes, c)
    ensures 0 <= Claimed(snap, VisitedVotes(votes, visited + {c})) <= MapSum(snap.bonded)
    ensures 0 <= Support(snap, votes, c)
  {
    SumSplit(PowerMap(snap, VisitedVotes(votes, visited + {c})), PowerMap(snap, VisitedVotes(votes, visited)),
             SupportMap(snap, votes, c));
    SupportBounds(snap, VisitedVotes(votes, visited + {c}), "");
    SumNonNegative(SupportMap(snap, votes, c));
  }

  /** The powers of the bonded validators, by address text. */
  ghost predicate PowersIndexed(codec: AddressCodec, bonded: map<Bytes, nat>, powers: map<string, int64>) {
    forall v :: v != [] ==>
      (codec.valText(v) in powers <==> v in bonded) &&
      (v in bonded ==> powers[codec.valText(v)] as int == bonded[v])
  }

  /** The leading claim among the claims already visited; -1 stands for none. */
  ghost predicate Leads(snap: Snapshot, votes: Votes, visited: set<string>, claim: string, power: int) {
    && (if visited == {} then power == -1 else claim in visited && power == Support(snap, votes, claim))
    && forall c :: c in visited ==> Support(snap, votes, c) <= power
  }

  lemma NoneVisited(snap: Snapshot, votes: Votes)
    ensures Claimed(snap, VisitedVotes(votes, {})) == 0
  {
    assert PowerMap(snap, VisitedVotes(votes, {})) == map[];
  }

  lemma AllVisited(snap: Snapshot, votes: Votes, claim: string, power: int)
    requires votes != map[] && Leads(snap, votes, votes.Values, claim, power)
    ensures VisitedVotes(votes, votes.Values) == votes
    ensures IsTop(snap, votes, claim) && power == Support(snap, votes, claim)
  {
    var v :| v in votes;
    assert votes[v] in votes.Values;
  }

  lemma NothingLeft(visited: set<string>, all: set<string>)
    requires visited <= all && all - visited == {}
    ensures visited == all
  {
    forall c | c in all ensures c in visited {
      assert c !in all - visited;
    }
  }

  lemma LeadsNext(snap: Snapshot, votes: Votes, visited: set<string>, claim: string, power: int, c: string)
    requires Leads(snap, votes, visited, claim, power) && 0 <= Support(snap, votes, c)
    ensures if Support(snap, votes, c) > power then Leads(snap, votes, visited + {c}, c, Support(snap, votes, c))
            else Leads(snap, votes, visited + {c}, claim, power)
  {
  }

  // ---------------------------------------------------------------- the prophecy object

  class Prophecy {
    var id: string
    var status: Status
    var claimValidators: map<string, seq<Bytes>>
    var validatorClaims: map<string, string>

    ghost function Data(): ProphecyData
      reads this
    {
      ProphecyData(id, status, claimValidators, validatorClaims)
    }

    constructor (data: ProphecyData)
      ensures Data() == data
    {
      id, status := data.id, data.status;
      claimValidators, validatorClaims := data.claimValidators, data.validatorClaims;
    }

    method AddClaim(codec: AddressCodec, validator: Bytes, claim: string)
      modifies this`claimValidators, this`validatorClaims
      ensures Data() == WithClaim(codec, old(Data()), validator, claim)
      ensures claim in claimValidators && claimValidators[claim] ==
                (if claim in old(claimValidators) then old(claimValidators)[claim] else []) + [validator]
      ensures claimValidators - {claim} == old(claimValidators) - {claim}
      ensures validatorClaims == old(validatorClaims)[codec.valText(validator) := claim]
    {
      var vs := if claim in claimValidators then claimValidators[claim] else [];
      claimValidators := claimValidators[claim := vs + [validator]];
      validatorClaims := validatorClaims[codec.valText(validator) := claim];
    }

    /** Index the bonded validators' powers by address text. */
    static method PowersByAddress(codec: AddressCodec, snap: Snapshot) returns (powers: map<string, int64>)
      requires snap.Valid()
      ensures PowersIndexed(codec, snap.bonded, powers)
    {
      powers := map[];
      var left := snap.bonded.Keys;
      while left != {}
        invariant left <= snap.bonded.Keys
        invariant PowersIndexed(codec, snap.bonded - left, powers)
        decreases left
      {
        var w :| w in left;
        EntryLeqSum(snap.bonded, w);
        forall v | v != [] && codec.valText(v) == codec.valText(w) ensures v == w {
          TextInjective(codec, v, w);
        }
        powers := powers[codec.valText(w) := snap.bonded[w] as int64];
        left := left - {w};
      }
    }

    /**
     The tally. Whatever the order in which the claims are visited, the powers are those of the votes,
     the claim is one of maximal power, and no sum leaves 64 bits.
     */
    method FindHighestClaim(codec: AddressCodec, snap: Snapshot, ghost votes: Votes)
        returns (highestClaim: string, highestClaimPower: int64, totalClaimsPower: int64)
      requires snap.Valid() && Agree(codec, Data(), votes) && votes != map[]
      ensures IsTop(snap, votes, highestClaim)
      ensures highestClaimPower as int == Support(snap, votes, highestClaim)
      ensures totalClaimsPower as int == Claimed(snap, votes)
    {
      var powers := PowersByAddress(codec, snap);
      highestClaim, highestClaimPower, totalClaimsPower := Tally(codec, snap, powers, claimValidators, votes);
    }

    /** The outer loop of the tally. */
    static method Tally(
      codec: AddressCodec, snap: Snapshot, powers: map<string, int64>,
      claimValidators: map<string, seq<Bytes>>, ghost votes: Votes)
        returns (highestClaim: string, highestClaimPower: int64, totalClaimsPower: int64)
      requires snap.Valid() && [] !in votes && votes != map[]
      requires Listed(claimValidators, votes) && PowersIndexed(codec, snap.bonded, powers)
      ensures IsTop(snap, votes, highestClaim)
      ensures highestClaimPower as int == Support(snap, votes, highestClaim)
      ensures totalClaimsPower as int == Claimed(snap, votes)
    {
      totalClaimsPower, highestClaimPower, highestClaim := 0, -1, "";
      var visited: set<string> := {};
      NoneVisited(snap, votes);
      while claimValidators.Keys - visited != {}
        invariant visited <= claimValidators.Keys
        invariant totalClaimsPower as int == Claimed(snap, VisitedVotes(votes, visited))
        invariant Leads(snap, votes, visited, highestClaim, highestClaimPower as int)
        decreases claimValidators.Keys - visited
      {
        var claim :| claim in claimValidators.Keys - visited;
        var claimPower := ClaimPower(codec, snap, powers, claimValidators, claim, votes);
        NextClaim(snap, votes, visited, claim);
        LeadsNext(snap, votes, visited, highestClaim, highestClaimPower as int, claim);
        totalClaimsPower := totalClaimsPower + claimPower;
        if claimPower > highestClaimPower {
          highestClaimPower := claimPower;
          highestClaim := claim;
        }
        visited := visited + {claim};
      }
      NothingLeft(visited, claimValidators.Keys);
      AllVisited(snap, votes, highestClaim, highestClaimPower as int);
    }

    /** The inner loop of the tally: the power of one claim's validators. */
    static method ClaimPower(
      codec: AddressCodec, snap: Snapshot, powers: map<string, int64>,
      claimValidators: map<string, seq<Bytes>>, claim: string, ghost votes: Votes) returns (claimPower: int64)
      requires snap.Valid() && [] !in votes
      requires Listed(claimValidators, votes) && claim in claimValidators
      requires PowersIndexed(codec, snap.bonded, powers)
      ensures claimPower as int == Support(snap, votes, claim)
    {
      claimPower := 0;
      var validators := claimValidators[claim];
      AllVotes(snap, votes, claimValidators, claim);
      for i := 0 to |validators|
        invariant claimPower as int == Claimed(snap, FirstVotes(votes, validators, i))
      {
        NextVote(snap, votes, claimValidators, claim, i);
        var text := codec.valText(validators[i]);
        var validatorPower: int64 := if text in powers then powers[text] else 0;
        assert validatorPower as int == snap.Power(validators[i]);
        claimPower := claimPower + validatorPower;
      }
    }

    method SerializeForDB(codec: AddressCodec) returns (db: DBProphecy)
      requires AddressesNonEmpty(claimValidators)
      ensures DeserializeFromDB(codec, db) == Some(Data()) && db.id == id
    {
      var lists := MarshalLists(codec, claimValidators);
      var claims := MarshalClaims(validatorClaims);
      db := DBProphecy(id, status, lists, claims);
    }
  }
}
