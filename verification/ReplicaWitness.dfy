/** A run, at a threshold of two fifths and with a change of stake, after which two replicas hold different states. */
module ReplicaWitness {
  import opened Wrappers
  import opened Addresses
  import opened Sums
  import opened Consensus
  import opened Voting
  import opened BridgeClaims
  import opened BridgeMachine
  import opened BridgeRuns

  const V1: Bytes := [1]
  const V2: Bytes := [2]
  const V3: Bytes := [3]
  const LOW := Threshold(2, 5)
  const EARLY := Snapshot(map[V1 := 3, V2 := 3, V3 := 4], 10)
  const LATE := Snapshot(map[V1 := 4, V2 := 4, V3 := 2], 10)

  function Sender(): (s: string)
    ensures |s| == 40 && forall i :: 0 <= i < 40 ==> s[i] == '0'
  {
    seq(40, i => '0')
  }

  ghost function LowEnv(): Env {
    Env(LatinCodec(), LOW, (bank, a, coins) => true)
  }

  /** Validator v claims one coin for the account with its own address. */
  function OwnClaim(v: Bytes): EthBridgeClaim {
    EthBridgeClaim(0, Sender(), v, v, [Coin("ethereum", 1)])
  }

  ghost function OwnText(v: Bytes): string {
    ClaimText(LatinCodec(), OracleClaim(v, [Coin("ethereum", 1)]))
  }

  lemma OwnTextInjective(v: Bytes, w: Bytes)
    requires v != [] && w != [] && OwnText(v) == OwnText(w)
    ensures v == w
  {
    ClaimTextInjective(LatinCodec(), OracleClaim(v, [Coin("ethereum", 1)]), OracleClaim(w, [Coin("ethereum", 1)]));
  }

  lemma Distinct()
    ensures V1 != V2 && V1 != V3 && V2 != V3
    ensures OwnText(V1) != OwnText(V2) && OwnText(V1) != OwnText(V3) && OwnText(V2) != OwnText(V3)
  {
    assert V1[0] != V2[0] && V1[0] != V3[0] && V2[0] != V3[0];
    if OwnText(V1) == OwnText(V2) {
      OwnTextInjective(V1, V2);
    }
    if OwnText(V1) == OwnText(V3) {
      OwnTextInjective(V1, V3);
    }
    if OwnText(V2) == OwnText(V3) {
      OwnTextInjective(V2, V3);
    }
  }

  // ---------------------------------------------------------------- the tally

  function Voter(n: nat): Bytes {
    if n == 1 then V1 else if n == 2 then V2 else V3
  }

  /** The votes after the first n validators claimed for themselves. */
  ghost function OwnVotes(n: nat): Votes
    requires n <= 3
  {
    if n == 0 then map[] else OwnVotes(n - 1)[Voter(n) := OwnText(Voter(n))]
  }

  lemma CastHas(n: nat)
    requires n <= 3
    ensures V1 in OwnVotes(n) <==> n >= 1
    ensures V2 in OwnVotes(n) <==> n >= 2
    ensures V3 in OwnVotes(n) <==> n >= 3
    ensures n >= 1 ==> OwnVotes(n)[V1] == OwnText(V1)
    ensures n >= 2 ==> OwnVotes(n)[V2] == OwnText(V2)
  {
    Distinct();
    if n > 0 {
      CastHas(n - 1);
    }
  }

  lemma OwnTally(snap: Snapshot, n: nat, c: string)
    requires n <= 3
    ensures Support(snap, OwnVotes(n), c) ==
              (if n >= 1 && c == OwnText(V1) then snap.Power(V1) else 0) +
              (if n >= 2 && c == OwnText(V2) then snap.Power(V2) else 0) +
              (if n >= 3 && c == OwnText(V3) then snap.Power(V3) else 0)
    ensures Claimed(snap, OwnVotes(n)) ==
              (if n >= 1 then snap.Power(V1) else 0) + (if n >= 2 then snap.Power(V2) else 0) +
              (if n >= 3 then snap.Power(V3) else 0)
  {
    Distinct();
    EmptyTally(snap, c);
    if n > 0 {
      OwnTally(snap, n - 1, c);
      CastHas(n - 1);
      SupportAdd(snap, OwnVotes(n - 1), Voter(n), OwnText(Voter(n)), c);
    }
  }

  /** Under the early stake the first two claims leave the poll pending. */
  lemma EarlyPends(n: nat)
    requires 1 <= n <= 2
    ensures Decides(LOW, EARLY, OwnVotes(n), NEW_STATUS, NEW_STATUS)
  {
    var top := OwnText(V1);
    Distinct();
    CastHas(n);
    assert OwnVotes(n)[V1] in OwnVotes(n).Values;
    forall c ensures Support(EARLY, OwnVotes(n), c) <= Support(EARLY, OwnVotes(n), top) == 3 {
      OwnTally(EARLY, n, c);
      OwnTally(EARLY, n, top);
    }
    assert IsTop(EARLY, OwnVotes(n), top);
    OwnTally(EARLY, n, top);
  }

  /** Under the late stake the third claim finds the first two tied at the threshold, and either may become final. */
  lemma LateTies(v: Bytes)
    requires v == V1 || v == V2
    ensures Decides(LOW, LATE, OwnVotes(3), NEW_STATUS, Status(Success, OwnText(v)))
  {
    var top := OwnText(v);
    Distinct();
    CastHas(3);
    assert OwnVotes(3)[v] in OwnVotes(3).Values;
    forall c ensures Support(LATE, OwnVotes(3), c) <= Support(LATE, OwnVotes(3), top) == 4 {
      OwnTally(LATE, 3, c);
      OwnTally(LATE, 3, top);
    }
    assert IsTop(LATE, OwnVotes(3), top);
  }

  // ---------------------------------------------------------------- the run

  function Id(): string {
    OracleId(0, Sender())
  }

  ghost function Polled(n: nat, status: Status): Polls
    requires n <= 3
  {
    if n == 0 then map[] else map[Id() := Poll(OwnVotes(n), status)]
  }

  lemma SenderIsValid()
    ensures IsValidEthAddress(Sender())
  {
    assert Sender()[1] == '0' && StripPrefix(Sender()) == Sender();
  }

  lemma OwnClaimAcceptable(v: Bytes)
    requires v != []
    ensures Rejection(OwnClaim(v)) == None && MsgId(OwnClaim(v)) == Id() && Id() != ""
    ensures MsgBallot(LowEnv(), OwnClaim(v)) == Ballot(v, OwnText(v))
  {
    SenderIsValid();
  }

  lemma OwnTextReadable(v: Bytes)
    requires v != []
    ensures Readable(LowEnv(), OwnText(v))
  {
    ClaimRoundTrip(LatinCodec(), OracleClaim(v, [Coin("ethereum", 1)]));
  }

  lemma PolledNext(n: nat, status: Status)
    requires 1 <= n <= 3
    ensures Polled(n - 1, NEW_STATUS)[Id() := Poll(OwnVotes(n), status)] == Polled(n, status)
  {
  }

  lemma OwnClaimOpen(n: nat, snap: Snapshot)
    requires 1 <= n <= 3 && (snap == EARLY || snap == LATE)
    ensures Refusal(snap, Polled(n - 1, NEW_STATUS), Id(), Ballot(Voter(n), OwnText(Voter(n)))) == None
    ensures PollOf(Polled(n - 1, NEW_STATUS), Id()) == Poll(OwnVotes(n - 1), NEW_STATUS)
  {
    CastHas(n - 1);
    OwnClaimAcceptable(Voter(n));
  }

  lemma OwnClaimRecorded(n: nat, snap: Snapshot, status: Status)
    requires 1 <= n <= 3 && (snap == EARLY || snap == LATE)
    requires Decides(LOW, snap, OwnVotes(n), NEW_STATUS, status)
    requires status == NEW_STATUS || status == Status(Success, OwnText(V1)) || status == Status(Success, OwnText(V2))
    ensures Step(LowEnv(), Waiting(n - 1, snap), Deliver(OwnClaim(Voter(n))),
                 Chain(Polled(n, status), Paid(LowEnv(), map[], status), snap))
  {
    var s := Waiting(n - 1, snap);
    var s' := Chain(Polled(n, status), Paid(LowEnv(), map[], status), snap);
    OwnClaimAcceptable(Voter(n));
    OwnClaimOpen(n, snap);
    PolledNext(n, status);
    OwnTextReadable(V1);
    OwnTextReadable(V2);
    RecordIsStep(LowEnv(), s, OwnClaim(Voter(n)), status, s');
  }

  /** The state after n claims under this stake, before any payment. */
  ghost function Waiting(n: nat, snap: Snapshot): Chain
    requires n <= 3
  {
    Chain(Polled(n, NEW_STATUS), map[], snap)
  }

  ghost function Finished(status: Status): Chain {
    Chain(Polled(3, status), Paid(LowEnv(), map[], status), LATE)
  }

  const EARLY_EVENTS: seq<Event> := [Deliver(OwnClaim(V1)), Deliver(OwnClaim(V2))]
  const EVENTS: seq<Event> := EARLY_EVENTS + [StakeChange(LATE), Deliver(OwnClaim(V3))]

  lemma EarlyTrace() returns (states: seq<Chain>)
    ensures Trace(LowEnv(), states, EARLY_EVENTS) && states[0] == Waiting(0, EARLY) && states[2] == Waiting(2, EARLY)
  {
    EarlyPends(1);
    EarlyPends(2);
    OwnClaimRecorded(1, EARLY, NEW_STATUS);
    OwnClaimRecorded(2, EARLY, NEW_STATUS);
    var start, first := [Waiting(0, EARLY)], [Deliver(OwnClaim(V1))];
    TraceExtends(LowEnv(), start, [], Deliver(OwnClaim(V1)), Waiting(1, EARLY));
    assert [] + first == first;
    states := start + [Waiting(1, EARLY)];
    TraceExtends(LowEnv(), states, first, Deliver(OwnClaim(V2)), Waiting(2, EARLY));
    states := states + [Waiting(2, EARLY)];
    assert first + [Deliver(OwnClaim(V2))] == EARLY_EVENTS;
  }

  /** The run of a replica for which the claim of v becomes final. */
  lemma LateTrace(v: Bytes) returns (states: seq<Chain>)
    requires v == V1 || v == V2
    ensures |states| == 5 && Trace(LowEnv(), states, EVENTS)
    ensures states[0] == Waiting(0, EARLY) && states[4] == Finished(Status(Success, OwnText(v)))
  {
    var early := EarlyTrace();
    LateTies(v);
    OwnClaimRecorded(3, LATE, Status(Success, OwnText(v)));
    var changed := EARLY_EVENTS + [StakeChange(LATE)];
    TraceExtends(LowEnv(), early, EARLY_EVENTS, StakeChange(LATE), Waiting(2, LATE));
    var last := Finished(Status(Success, OwnText(v)));
    TraceExtends(LowEnv(), early + [Waiting(2, LATE)], changed, Deliver(OwnClaim(V3)), last);
    states := early + [Waiting(2, LATE)] + [last];
    assert EVENTS == changed + [Deliver(OwnClaim(V3))];
  }

  lemma PaidTo(v: Bytes)
    requires v != []
    ensures
      var bank := Paid(LowEnv(), map[], Status(Success, OwnText(v)));
      forall w :: Lookup(bank, (w, "ethereum")) == if v == w then 1 else 0
  {
    var coins := [Coin("ethereum", 1)];
    ClaimRoundTrip(LatinCodec(), OracleClaim(v, coins));
    forall w ensures Lookup(AddCoins(map[], v, coins), (w, "ethereum")) == if v == w then 1 else 0 {
      AddCoinsEffect(map[], v, coins, (w, "ethereum"));
      assert coins[1..] == [];
    }
  }

  /**
   Powers 3, 3 and 4 at a threshold of two fifths: the first two validators claim, the powers change to 4, 4 and 2,
   and the third one claims. From the same state and with the same events, one replica pays the first validator's
   account and another one the second's.
   */
  lemma ReplicasCanDisagree() returns (one: seq<Chain>, other: seq<Chain>)
    ensures LOW.Valid() && EARLY.Covers() && LATE.Covers()
    ensures Trace(LowEnv(), one, EVENTS) && Trace(LowEnv(), other, EVENTS) && one[0] == other[0]
    ensures Lookup(one[4].bank, (V1, "ethereum")) == 1 && Lookup(one[4].bank, (V2, "ethereum")) == 0
    ensures Lookup(other[4].bank, (V1, "ethereum")) == 0 && Lookup(other[4].bank, (V2, "ethereum")) == 1
  {
    StakesAreSound();
    one := PaidTrace(V1, V2);
    other := PaidTrace(V2, V1);
  }

  /** The run that pays v and not w. */
  lemma PaidTrace(v: Bytes, w: Bytes) returns (states: seq<Chain>)
    requires (v == V1 && w == V2) || (v == V2 && w == V1)
    ensures Trace(LowEnv(), states, EVENTS) && states[0] == Waiting(0, EARLY) && |states| == 5
    ensures Lookup(states[4].bank, (v, "ethereum")) == 1 && Lookup(states[4].bank, (w, "ethereum")) == 0
  {
    states := LateTrace(v);
    PaidTo(v);
    Distinct();
  }

  lemma StakesAreSound()
    ensures EARLY.Covers() && LATE.Covers()
  {
    StakeSum(3, 3, 4);
    StakeSum(4, 4, 2);
  }

  lemma StakeSum(a: nat, b: nat, c: nat)
    ensures MapSum(map[V1 := a, V2 := b, V3 := c]) == a + b + c
  {
    Distinct();
    var none: map<Bytes, int> := map[];
    SumUpdate(none, V1, a);
    SumUpdate(none[V1 := a], V2, b);
    SumUpdate(none[V1 := a][V2 := b], V3, c);
    assert none[V1 := a][V2 := b][V3 := c] == map[V1 := a, V2 := b, V3 := c];
  }
}
