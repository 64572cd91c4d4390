/**
 Stake-weighted voting on one prophecy, independent of how votes are indexed and of the order in
 which Go visits a map. A poll holds each validator's claim; Decides says which status a tally
 may produce, where the leading claim may be any claim of maximal power.
 */
module Consensus {
  import opened Addresses
  import opened Sums

  const MAX_INT64: int := 0x7fff_ffff_ffff_ffff

  /** What the staking keeper reports: the power of each bonded validator and the last total power. */
  datatype Snapshot = Snapshot(bonded: map<Bytes, nat>, totalPower: int) {
    /** A validator missing from the bonded set counts 0. */
    function Power(v: Bytes): nat {
      if v in bonded then bonded[v] else 0
    }

    ghost predicate Valid() {
      [] !in bonded && 0 < totalPower <= MAX_INT64 && MapSum(bonded) <= MAX_INT64
    }

    /** The total power counts at least the bonded validators. */
    ghost predicate Covers() {
      Valid() && MapSum(bonded) <= totalPower
    }

    /** The total power is the sum of the bonded powers. */
    ghost predicate Exact() {
      Valid() && MapSum(bonded) == totalPower
    }
  }

  /** The share of power needed, as the rational num/den. Ratios are compared by cross-multiplication. */
  datatype Threshold = Threshold(num: int, den: int) {
    ghost predicate Valid() {
      0 < num <= den
    }

    ghost predicate Majority() {
      Valid() && den < 2 * num
    }

    predicate Reached(power: int, total: int) {
      power * den >= num * total
    }

    predicate NotAbove(power: int, total: int) {
      power * den <= num * total
    }
  }

  datatype StatusText = Pending | Success | Failed
  datatype Status = Status(text: StatusText, finalClaim: string)

  type Votes = map<Bytes, string>
  datatype Poll = Poll(votes: Votes, status: Status)

  const NEW_STATUS := Status(Pending, "")
  const NEW_POLL := Poll(map[], NEW_STATUS)

  ghost function SupportMap(snap: Snapshot, votes: Votes, c: string): map<Bytes, int> {
    map v | v in votes && votes[v] == c :: snap.Power(v)
  }

  ghost function PowerMap(snap: Snapshot, votes: Votes): map<Bytes, int> {
    map v | v in votes :: snap.Power(v)
  }

  /** The power behind claim c. */
  ghost function Support(snap: Snapshot, votes: Votes, c: string): int {
    MapSum(SupportMap(snap, votes, c))
  }

  /** The power of everyone who voted. */
  ghost function Claimed(snap: Snapshot, votes: Votes): int {
    MapSum(PowerMap(snap, votes))
  }

  /** The power claim c would have if all power not yet claimed joined it. */
  ghost function BestPossible(snap: Snapshot, votes: Votes, c: string): int {
    Support(snap, votes, c) + (snap.totalPower - Claimed(snap, votes))
  }

  ghost predicate IsTop(snap: Snapshot, votes: Votes, top: string) {
    top in votes.Values &&
    forall c :: c in votes.Values ==> Support(snap, votes, c) <= Support(snap, votes, top)
  }

  ghost function Outcome(th: Threshold, snap: Snapshot, votes: Votes, top: string, prior: Status): Status {
    if th.Reached(Support(snap, votes, top), snap.totalPower) then Status(Success, top)
    else if th.NotAbove(BestPossible(snap, votes, top), snap.totalPower) then prior.(text := Failed)
    else prior
  }

  /** `st` is a status that processCompletion can leave, for some order of visiting the claims. */
  ghost predicate Decides(th: Threshold, snap: Snapshot, votes: Votes, prior: Status, st: Status) {
    exists top :: IsTop(snap, votes, top) && st == Outcome(th, snap, votes, top, prior)
  }

  // ---------------------------------------------------------------- tally arithmetic

  lemma SupportAdd(snap: Snapshot, votes: Votes, v: Bytes, c: string, d: string)
    requires v !in votes
    ensures Support(snap, votes[v := c], d) == Support(snap, votes, d) + if c == d then snap.Power(v) else 0
    ensures Claimed(snap, votes[v := c]) == Claimed(snap, votes) + snap.Power(v)
  {
    ClaimedAdd(snap, votes, v, c);
    var before, after := SupportMap(snap, votes, d), SupportMap(snap, votes[v := c], d);
    if c == d {
      assert after == before[v := snap.Power(v)];
      SumUpdate(before, v, snap.Power(v));
    } else {
      assert after == before;
    }
  }

  lemma ClaimedAdd(snap: Snapshot, votes: Votes, v: Bytes, c: string)
    requires v !in votes
    ensures Claimed(snap, votes[v := c]) == Claimed(snap, votes) + snap.Power(v)
  {
    var before, after := PowerMap(snap, votes), PowerMap(snap, votes[v := c]);
    assert after == before[v := snap.Power(v)];
    SumUpdate(before, v, snap.Power(v));
  }

  lemma SupportMonotone(snap: Snapshot, votes: Votes, more: Votes, c: string)
    requires forall v :: v in votes ==> v in more && more[v] == votes[v]
    ensures Support(snap, votes, c) <= Support(snap, more, c)
    ensures Support(snap, more, c) <= Support(snap, votes, c) + Claimed(snap, more) - Claimed(snap, votes)
    ensures Claimed(snap, votes) <= Claimed(snap, more)
  {
    SumLeq(SupportMap(snap, votes, c), SupportMap(snap, more, c));
    var new' := map v | v in more && v !in votes :: snap.Power(v);
    var newC := map v | v in more && v !in votes && more[v] == c :: snap.Power(v);
    SumSplit(PowerMap(snap, more), PowerMap(snap, votes), new');
    SumSplit(SupportMap(snap, more, c), SupportMap(snap, votes, c), newC);
    SumLeq(newC, new');
    SumNonNegative(new');
  }

  /** Every tally lies between 0 and the bonded power, so no partial sum of the counting loops leaves 64 bits. */
  lemma SupportBounds(snap: Snapshot, votes: Votes, c: string)
    ensures 0 <= Support(snap, votes, c) <= Claimed(snap, votes) <= MapSum(snap.bonded)
  {
    SumNonNegative(SupportMap(snap, votes, c));
    SumLeq(SupportMap(snap, votes, c), PowerMap(snap, votes));
    var counted := map v | v in votes && v in snap.bonded :: snap.Power(v);
    SumLeq(PowerMap(snap, votes), counted);
    SumLeq(counted, snap.bonded);
  }

  /**
   When the total power covers the bonded power, the remaining power is never negative and nothing exceeds the
   total.
   */
  lemma TallyBounds(snap: Snapshot, votes: Votes, c: string)
    requires snap.Covers()
    ensures 0 <= Support(snap, votes, c) <= BestPossible(snap, votes, c) <= snap.totalPower
    ensures 0 <= snap.totalPower - Claimed(snap, votes)
  {
    SupportBounds(snap, votes, c);
  }

  /** Two different claims never share power. */
  lemma SupportDisjoint(snap: Snapshot, votes: Votes, c: string, d: string)
    requires c != d
    ensures Support(snap, votes, c) + Support(snap, votes, d) <= Claimed(snap, votes)
  {
    var both := map v | v in votes && (votes[v] == c || votes[v] == d) :: snap.Power(v);
    SumSplit(both, SupportMap(snap, votes, c), SupportMap(snap, votes, d));
    SumLeq(both, PowerMap(snap, votes));
  }

  lemma AllClaimed(snap: Snapshot, votes: Votes)
    requires snap.bonded.Keys <= votes.Keys
    ensures Claimed(snap, votes) == MapSum(snap.bonded)
  {
    SupportBounds(snap, votes, "");
    SumLeq(snap.bonded, PowerMap(snap, votes));
  }

  lemma UnvotedClaimHasNoSupport(snap: Snapshot, votes: Votes, c: string)
    requires c !in votes.Values
    ensures Support(snap, votes, c) == 0
  {
    assert SupportMap(snap, votes, c) == map[];
  }

  lemma {:induction false} TopExistsAmong(snap: Snapshot, votes: Votes, cs: set<string>) returns (top: string)
    requires cs != {}
    ensures top in cs && forall c :: c in cs ==> Support(snap, votes, c) <= Support(snap, votes, top)
    decreases cs
  {
    var c :| c in cs;
    if cs == {c} {
      top := c;
    } else {
      var rest := TopExistsAmong(snap, votes, cs - {c});
      top := if Support(snap, votes, c) <= Support(snap, votes, rest) then rest else c;
    }
  }

  lemma TopExists(snap: Snapshot, votes: Votes) returns (top: string)
    requires votes != map[]
    ensures IsTop(snap, votes, top)
  {
    var v :| v in votes;
    assert votes[v] in votes.Values;
    top := TopExistsAmong(snap, votes, votes.Values);
  }

  lemma TopDominates(snap: Snapshot, votes: Votes, top: string, c: string)
    requires IsTop(snap, votes, top)
    ensures Support(snap, votes, c) <= Support(snap, votes, top)
  {
    if c !in votes.Values {
      UnvotedClaimHasNoSupport(snap, votes, c);
      SupportBounds(snap, votes, top);
    }
  }

  // ---------------------------------------------------------------- thresholds

  lemma ThresholdMonotone(th: Threshold, a: int, b: int, total: int)
    requires th.Valid() && a <= b
    ensures th.Reached(a, total) ==> th.Reached(b, total)
    ensures th.NotAbove(b, total) ==> th.NotAbove(a, total)
  {
    assert a * th.den <= b * th.den;
  }

  /** Over a majority threshold, two claims cannot both reach it. */
  lemma MajorityUnique(th: Threshold, snap: Snapshot, votes: Votes, c: string, d: string)
    requires th.Majority() && snap.Covers()
    requires th.Reached(Support(snap, votes, c), snap.totalPower)
    requires th.Reached(Support(snap, votes, d), snap.totalPower)
    ensures c == d
  {
    if c != d {
      SupportBounds(snap, votes, c);
      SupportDisjoint(snap, votes, c, d);
      TwoMajorities(th.num, th.den, Support(snap, votes, c), Support(snap, votes, d), snap.totalPower);
    }
  }

  lemma TwoMajorities(num: int, den: int, a: int, b: int, total: int)
    requires 0 < den < 2 * num && 0 < total
    requires a * den >= num * total && b * den >= num * total
    ensures a + b > total
  {
    var x := (2 * num - den) * total;
    assert x > 0;
    assert x == 2 * (num * total) - den * total;
    assert (a + b) * den == a * den + b * den;
    assert (a + b - total) * den == (a + b) * den - total * den;
  }
}
