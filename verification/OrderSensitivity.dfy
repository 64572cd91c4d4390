/** Exactly when the order of submission can change the result, for every threshold and a fixed staking snapshot. */
module OrderSensitivity {
  import opened Addresses
  import opened Sums
  import opened Consensus
  import opened Voting
  import opened Histories

  /** Claim c ends exactly at the threshold. */
  ghost predicate AtThreshold(th: Threshold, snap: Snapshot, final: Votes, c: string) {
    Support(snap, final, c) * th.den == th.num * snap.totalPower
  }

  /** Some of c's supporters, short of the threshold together, hold at least as much as every other claim. */
  ghost predicate Splits(snap: Snapshot, final: Votes, c: string, vs: set<Bytes>) {
    && (forall v :: v in vs ==> v in final && final[v] == c)
    && Support(snap, AllFor(vs, c), c) < Support(snap, final, c)
    && forall d :: d != c ==> Support(snap, final, d) <= Support(snap, AllFor(vs, c), c)
  }

  ghost predicate Fragile(th: Threshold, snap: Snapshot, final: Votes) {
    exists c, vs :: AtThreshold(th, snap, final, c) && Splits(snap, final, c, vs)
  }

  ghost predicate ReachedAtEnd(th: Threshold, snap: Snapshot, final: Votes, c: string) {
    th.Reached(Support(snap, final, c), snap.totalPower)
  }

  /** Two different claims both end at or over the threshold. */
  ghost predicate Rivals(th: Threshold, snap: Snapshot, final: Votes) {
    exists c, d :: c != d && ReachedAtEnd(th, snap, final, c) && ReachedAtEnd(th, snap, final, d)
  }

  /** Every order of the same submissions ends with the same status. */
  ghost predicate OrderFree(th: Threshold, snap: Snapshot, final: Votes) {
    forall one, other, p, q ::
      Permutes(one, final) && Plays(th, snap, one, p) && Permutes(other, final) && Plays(th, snap, other, q)
      ==> p.status == q.status
  }

  ghost predicate Complete(snap: Snapshot, final: Votes) {
    final.Keys == snap.bonded.Keys && "" !in final.Values
  }

  // ---------------------------------------------------------------- a final status stays

  lemma {:induction false} DecidedStays(th: Threshold, snap: Snapshot, bs: seq<Ballot>, mid: Poll, more: seq<Ballot>)
    requires Plays(th, snap, bs, mid) && mid.status.text != Pending
    ensures Plays(th, snap, bs + more, mid)
  {
    if more == [] {
      assert bs + more == bs;
    } else {
      DecidedStays(th, snap, bs, mid, Before(more));
      assert Before(bs + more) == bs + Before(more) && Last(bs + more) == Last(more);
      assert Submits(th, snap, mid, Last(more), mid);
    }
  }

  // ---------------------------------------------------------------- the ballots of some validators

  lemma {:induction false} BallotsOf(final: Votes, vs: set<Bytes>) returns (bs: seq<Ballot>)
    requires vs <= final.Keys
    ensures forall b :: b in bs <==> b.voter in vs && b.claim == final[b.voter]
    decreases vs
  {
    if vs == {} {
      bs := [];
    } else {
      var v :| v in vs;
      var rest := BallotsOf(final, vs - {v});
      bs := [Ballot(v, final[v])] + rest;
    }
  }

  ghost function Voters(final: Votes, c: string): set<Bytes> {
    set v | v in final && final[v] == c
  }

  lemma AtThresholdCompares(th: Threshold, snap: Snapshot, final: Votes, c: string, p: int)
    requires th.Valid() && AtThreshold(th, snap, final, c)
    ensures th.Reached(p, snap.totalPower) <==> Support(snap, final, c) <= p
    ensures th.NotAbove(p, snap.totalPower) <==> p <= Support(snap, final, c)
  {
    assert (p - Support(snap, final, c)) * th.den == p * th.den - th.num * snap.totalPower;
  }

  // ---------------------------------------------------------------- an order in which c succeeds

  lemma OnlyClaimTotals(snap: Snapshot, votes: Votes, c: string)
    requires votes.Values <= {c}
    ensures Support(snap, votes, c) == Claimed(snap, votes)
  {
    forall v | v in votes ensures votes[v] == c {
      assert votes[v] in votes.Values;
    }
    assert SupportMap(snap, votes, c) == PowerMap(snap, votes);
  }

  lemma ReachedIsPositive(th: Threshold, snap: Snapshot, final: Votes, c: string)
    requires th.Valid() && snap.Valid() && ReachedAtEnd(th, snap, final, c)
    ensures 0 < Support(snap, final, c) && Voters(final, c) != {}
  {
    assert 0 < th.num * snap.totalPower;
    if c !in final.Values {
      UnvotedClaimHasNoSupport(snap, final, c);
    }
    var v :| v in final && final[v] == c;
    assert v in Voters(final, c);
  }

  /** While only one claim has votes, it still could get all the power, so the poll has not failed. */
  lemma AloneNeverFails(th: Threshold, snap: Snapshot, c: string, bs: seq<Ballot>, poll: Poll)
    requires th.Valid() && th.num < th.den && snap.Valid()
    requires Plays(th, snap, bs, poll) && (forall b :: b in bs ==> b.claim == c)
    ensures poll.status.text != Failed && (poll.status.text == Success ==> poll.status.finalClaim == c)
  {
    PlaysInv(th, snap, bs, poll);
    PlaysVotes(th, snap, bs, poll);
    assert poll.votes.Values <= {c};
    OnlyClaimTotals(snap, poll.votes, c);
    assert th.num * snap.totalPower < th.den * snap.totalPower;
    assert BestPossible(snap, poll.votes, c) == snap.totalPower;
  }

  /** A run of all supporters of a claim that ends at the threshold, and of nobody else, ends with its success. */
  lemma SupportersAlone(th: Threshold, snap: Snapshot, final: Votes, c: string, bs: seq<Ballot>, poll: Poll)
    requires th.Valid() && th.num < th.den && snap.Valid() && Complete(snap, final) && ReachedAtEnd(th, snap, final, c)
    requires forall b :: b in bs <==> b.voter in Voters(final, c) && b.claim == final[b.voter]
    requires Plays(th, snap, bs, poll)
    ensures poll.status == Status(Success, c)
  {
    AloneNeverFails(th, snap, c, bs, poll);
    if poll.status.text == Pending {
      ReachedIsPositive(th, snap, final, c);
      var votes := AllFor(Voters(final, c), c);
      assert SupportMap(snap, votes, c) == SupportMap(snap, final, c);
      var v :| v in votes;
      assert votes[v] in votes.Values;
      PlaysInv(th, snap, bs, poll);
      PendingIsComplete(th, snap, final, votes, bs, poll);
    }
  }

  lemma SupportersFirst(th: Threshold, snap: Snapshot, final: Votes, c: string) returns (order: seq<Ballot>, poll: Poll)
    requires th.Valid() && th.num < th.den && snap.Valid() && Complete(snap, final) && ReachedAtEnd(th, snap, final, c)
    ensures Permutes(order, final) && Plays(th, snap, order, poll) && poll.status == Status(Success, c)
  {
    var first := BallotsOf(final, Voters(final, c));
    var rest := BallotsOf(final, final.Keys - Voters(final, c));
    poll := PlaysExists(th, snap, first);
    order := first + rest;
    SupportersAlone(th, snap, final, c, first, poll);
    DecidedStays(th, snap, first, poll, rest);
  }

  // ---------------------------------------------------------------- an order in which c fails

  ghost function Others(votes: Votes, c: string): Votes {
    map v | v in votes && votes[v] != c :: votes[v]
  }

  lemma OthersTally(snap: Snapshot, votes: Votes, c: string)
    ensures Claimed(snap, Others(votes, c)) == Claimed(snap, votes) - Support(snap, votes, c)
    ensures forall d :: d != c ==> Support(snap, Others(votes, c), d) == Support(snap, votes, d)
  {
    SumSplit(PowerMap(snap, votes), PowerMap(snap, Others(votes, c)), SupportMap(snap, votes, c));
    forall d | d != c ensures Support(snap, Others(votes, c), d) == Support(snap, votes, d) {
      assert SupportMap(snap, Others(votes, c), d) == SupportMap(snap, votes, d);
    }
  }

  /** The votes of everyone who opposed c and of the supporters in vs. */
  ghost function Opposed(final: Votes, c: string, vs: set<Bytes>): Votes {
    map v | v in final && (final[v] != c || v in vs) :: final[v]
  }

  lemma OpposedTally(snap: Snapshot, final: Votes, c: string, vs: set<Bytes>)
    requires snap.Exact() && Complete(snap, final) && Splits(snap, final, c, vs)
    ensures Claimed(snap, Opposed(final, c, vs)) ==
              snap.totalPower - Support(snap, final, c) + Support(snap, AllFor(vs, c), c)
    ensures forall e :: Support(snap, Opposed(final, c, vs), e) <= Support(snap, AllFor(vs, c), c)
  {
    var opposed := Opposed(final, c, vs);
    AllClaimed(snap, final);
    OthersTally(snap, final, c);
    OthersTally(snap, opposed, c);
    assert Others(opposed, c) == Others(final, c);
    assert SupportMap(snap, opposed, c) == SupportMap(snap, AllFor(vs, c), c);
  }

  /** A run of exactly those ballots ends in failure. */
  lemma OpponentsAlone(
    th: Threshold, snap: Snapshot, final: Votes, c: string, vs: set<Bytes>, bs: seq<Ballot>, poll: Poll)
    requires th.Valid() && th.num < th.den && snap.Exact() && Complete(snap, final)
    requires AtThreshold(th, snap, final, c) && Splits(snap, final, c, vs)
    requires forall b :: b in bs <==> b.voter in Opposed(final, c, vs) && b.claim == final[b.voter]
    requires Plays(th, snap, bs, poll)
    ensures poll.status.text == Failed
  {
    var opposed := Opposed(final, c, vs);
    PlaysInv(th, snap, bs, poll);
    PlaysVotes(th, snap, bs, poll);
    OpposedTally(snap, final, c, vs);
    forall e
      ensures !th.Reached(Support(snap, poll.votes, e), snap.totalPower)
      ensures th.NotAbove(BestPossible(snap, opposed, e), snap.totalPower)
    {
      SupportMonotone(snap, poll.votes, opposed, e);
      AtThresholdCompares(th, snap, final, c, Support(snap, poll.votes, e));
      AtThresholdCompares(th, snap, final, c, BestPossible(snap, opposed, e));
    }
    OpposedNotEmpty(th, snap, final, c, vs);
    if poll.status.text == Pending {
      PendingIsComplete(th, snap, final, opposed, bs, poll);
    }
  }

  lemma OpposedNotEmpty(th: Threshold, snap: Snapshot, final: Votes, c: string, vs: set<Bytes>)
    requires th.Valid() && th.num < th.den && snap.Exact() && Complete(snap, final)
    requires AtThreshold(th, snap, final, c) && Splits(snap, final, c, vs)
    ensures Opposed(final, c, vs) != map[]
  {
    OpposedTally(snap, final, c, vs);
    EmptyTally(snap, c);
    SupportBounds(snap, AllFor(vs, c), c);
    BelowTotal(th.num, th.den, Support(snap, final, c), snap.totalPower);
  }

  lemma BelowTotal(num: int, den: int, power: int, total: int)
    requires 0 < num < den && 0 < total && power * den == num * total
    ensures power < total
  {
    assert (den - num) * total > 0;
    assert (total - power) * den == total * den - power * den == (den - num) * total;
  }

  lemma OpponentsFirst(th: Threshold, snap: Snapshot, final: Votes, c: string, vs: set<Bytes>)
      returns (order: seq<Ballot>, poll: Poll)
    requires th.Valid() && th.num < th.den && snap.Exact() && Complete(snap, final)
    requires AtThreshold(th, snap, final, c) && Splits(snap, final, c, vs)
    ensures Permutes(order, final) && Plays(th, snap, order, poll) && poll.status.text == Failed
  {
    var first := BallotsOf(final, Opposed(final, c, vs).Keys);
    var rest := BallotsOf(final, final.Keys - Opposed(final, c, vs).Keys);
    poll := PlaysExists(th, snap, first);
    order := first + rest;
    OpponentsAlone(th, snap, final, c, vs, first, poll);
    DecidedStays(th, snap, first, poll, rest);
  }

  /** A pending poll over the ballots of some validators holds exactly their votes. */
  lemma PendingIsComplete(th: Threshold, snap: Snapshot, final: Votes, some: Votes, bs: seq<Ballot>, poll: Poll)
    requires Complete(snap, final) && (forall v :: v in some ==> v in final && some[v] == final[v])
    requires forall b :: b in bs <==> b.voter in some && b.claim == final[b.voter]
    requires Plays(th, snap, bs, poll) && poll.status.text == Pending
    ensures poll.votes == some
  {
    PlaysVotes(th, snap, bs, poll);
    PendingCountsAll(th, snap, bs, poll);
    forall v | v in some ensures v in poll.votes {
      assert Ballot(v, final[v]) in bs && final[v] in final.Values;
    }
  }

  // ---------------------------------------------------------------- the characterisation

  /** A failure against a claim that ends at or over the threshold shows that it ends exactly there. */
  lemma FailureTies(th: Threshold, snap: Snapshot, final: Votes, order: seq<Ballot>, poll: Poll, c: string)
    requires th.Valid() && snap.Exact() && Complete(snap, final) && ReachedAtEnd(th, snap, final, c)
    requires Permutes(order, final) && Plays(th, snap, order, poll) && poll.status.text == Failed
    ensures AtThreshold(th, snap, final, c)
  {
    PlaysInv(th, snap, order, poll);
    PlaysVotes(th, snap, order, poll);
    SupportMonotone(snap, poll.votes, final, c);
    AllClaimed(snap, final);
    ThresholdMonotone(th, Support(snap, final, c), BestPossible(snap, poll.votes, c), snap.totalPower);
  }

  /** It also shows which of its supporters had voted. */
  lemma FailureSplits(th: Threshold, snap: Snapshot, final: Votes, order: seq<Ballot>, poll: Poll, c: string)
    requires th.Valid() && snap.Exact() && Complete(snap, final) && AtThreshold(th, snap, final, c)
    requires Permutes(order, final) && Plays(th, snap, order, poll) && poll.status.text == Failed
    ensures Splits(snap, final, c, Voters(poll.votes, c))
  {
    PlaysInv(th, snap, order, poll);
    PlaysVotes(th, snap, order, poll);
    var votes, vs := poll.votes, Voters(poll.votes, c);
    assert SupportMap(snap, AllFor(vs, c), c) == SupportMap(snap, votes, c);
    ReachedIsPositive(th, snap, final, c);
    AtThresholdCompares(th, snap, final, c, Support(snap, votes, c));
    if c !in votes.Values {
      UnvotedClaimHasNoSupport(snap, votes, c);
    }
    forall d | d != c ensures Support(snap, final, d) <= Support(snap, votes, c) {
      AtThresholdCompares(th, snap, final, c, BestPossible(snap, votes, c));
      AtThresholdCompares(th, snap, final, c, BestPossible(snap, votes, d));
      OthersComplete(snap, final, votes, c, d);
    }
  }

  /** If c could not exceed its final support, everyone else's power had voted. */
  lemma OthersComplete(snap: Snapshot, final: Votes, votes: Votes, c: string, d: string)
    requires snap.Exact() && Complete(snap, final) && d != c
    requires forall v :: v in votes ==> v in final && votes[v] == final[v]
    requires BestPossible(snap, votes, c) <= Support(snap, final, c)
    ensures Claimed(snap, votes) - Support(snap, votes, c) == snap.totalPower - Support(snap, final, c)
    ensures Support(snap, final, d) <= Support(snap, votes, d)
  {
    AllClaimed(snap, final);
    OthersTally(snap, final, c);
    OthersTally(snap, votes, c);
    SupportMonotone(snap, Others(votes, c), Others(final, c), d);
  }

  lemma EveryoneDecides(th: Threshold, snap: Snapshot, final: Votes, order: seq<Ballot>, poll: Poll)
    requires th.Valid() && snap.Exact() && Complete(snap, final)
    requires Permutes(order, final) && Plays(th, snap, order, poll)
    ensures poll.status.text != Pending
  {
    if poll.status.text == Pending {
      PlaysInv(th, snap, order, poll);
      PendingIsComplete(th, snap, final, final, order, poll);
      BondedNotEmpty(snap);
      AllClaimedDecides(th, snap, poll);
    }
  }

  /** A success names a claim that ends at or over the threshold. */
  lemma SuccessReaches(th: Threshold, snap: Snapshot, final: Votes, order: seq<Ballot>, poll: Poll)
    requires th.Valid() && Permutes(order, final) && Plays(th, snap, order, poll) && poll.status.text == Success
    ensures ReachedAtEnd(th, snap, final, poll.status.finalClaim)
  {
    PlaysInv(th, snap, order, poll);
    PlaysVotes(th, snap, order, poll);
    var c := poll.status.finalClaim;
    SupportMonotone(snap, poll.votes, final, c);
    ThresholdMonotone(th, Support(snap, poll.votes, c), Support(snap, final, c), snap.totalPower);
  }

  /** What every order ends in when no claim is fragile and no two are rivals. */
  lemma SettledResult(th: Threshold, snap: Snapshot, final: Votes, order: seq<Ballot>, poll: Poll)
    requires th.Valid() && snap.Exact() && Complete(snap, final)
    requires !Fragile(th, snap, final) && !Rivals(th, snap, final)
    requires Permutes(order, final) && Plays(th, snap, order, poll)
    ensures forall c :: ReachedAtEnd(th, snap, final, c) ==> poll.status == Status(Success, c)
    ensures (forall c :: !ReachedAtEnd(th, snap, final, c)) ==> poll.status == Status(Failed, "")
  {
    PlaysInv(th, snap, order, poll);
    EveryoneDecides(th, snap, final, order, poll);
    if poll.status.text == Success {
      SuccessReaches(th, snap, final, order, poll);
    } else if c :| ReachedAtEnd(th, snap, final, c) {
      FailureTies(th, snap, final, order, poll, c);
      FailureSplits(th, snap, final, order, poll, c);
    }
  }

  lemma SettledAgrees(
    th: Threshold, snap: Snapshot, final: Votes, one: seq<Ballot>, p: Poll, other: seq<Ballot>, q: Poll)
    requires th.Valid() && snap.Exact() && Complete(snap, final)
    requires !Fragile(th, snap, final) && !Rivals(th, snap, final)
    requires Permutes(one, final) && Plays(th, snap, one, p)
    requires Permutes(other, final) && Plays(th, snap, other, q)
    ensures p.status == q.status
  {
    SettledResult(th, snap, final, one, p);
    SettledResult(th, snap, final, other, q);
    if c :| ReachedAtEnd(th, snap, final, c) {
      assert p.status == Status(Success, c);
    }
  }

  lemma FragileDisagrees(th: Threshold, snap: Snapshot, final: Votes)
    requires th.Valid() && th.num < th.den && snap.Exact() && Complete(snap, final) && Fragile(th, snap, final)
    ensures !OrderFree(th, snap, final)
  {
    var c, vs :| AtThreshold(th, snap, final, c) && Splits(snap, final, c, vs);
    var one, p := SupportersFirst(th, snap, final, c);
    var other, q := OpponentsFirst(th, snap, final, c, vs);
  }

  lemma RivalsDisagree(th: Threshold, snap: Snapshot, final: Votes)
    requires th.Valid() && th.num < th.den && snap.Valid() && Complete(snap, final) && Rivals(th, snap, final)
    ensures !OrderFree(th, snap, final)
  {
    var c, d :| c != d && ReachedAtEnd(th, snap, final, c) && ReachedAtEnd(th, snap, final, d);
    var one, p := SupportersFirst(th, snap, final, c);
    var other, q := SupportersFirst(th, snap, final, d);
  }

  /**
   Below a threshold of 1, the order of submission can change the result exactly when two claims end at or over the
   threshold, or a claim ends exactly at it and some of its supporters, short of the threshold, hold at least as much
   as every other claim.
   */
  lemma PartialThresholdOrderExactly(th: Threshold, snap: Snapshot, final: Votes)
    requires th.Valid() && th.num < th.den && snap.Exact() && Complete(snap, final)
    ensures OrderFree(th, snap, final) <==> !Fragile(th, snap, final) && !Rivals(th, snap, final)
  {
    if Fragile(th, snap, final) {
      FragileDisagrees(th, snap, final);
    } else if Rivals(th, snap, final) {
      RivalsDisagree(th, snap, final);
    } else {
      forall one, other, p, q |
        Permutes(one, final) && Plays(th, snap, one, p) && Permutes(other, final) && Plays(th, snap, other, q)
        ensures p.status == q.status
      {
        SettledAgrees(th, snap, final, one, p, other, q);
      }
    }
  }

  /** For every threshold that NewKeeper accepts: exactly when all orders of the same submissions end the same way. */
  lemma OrderMattersExactly(th: Threshold, snap: Snapshot, final: Votes)
    requires th.Valid() && snap.Exact() && Complete(snap, final)
    ensures OrderFree(th, snap, final) <==>
              if th.num < th.den then !Fragile(th, snap, final) && !Rivals(th, snap, final)
              else forall v :: HoldsAll(snap, v) ==> snap.bonded.Keys == {v}
  {
    if th.num < th.den {
      PartialThresholdOrderExactly(th, snap, final);
    } else {
      FullThresholdOrderExactly(th, snap, final);
    }
  }

  // ---------------------------------------------------------------- a threshold of 1

  lemma {:induction false} DecidedFixed(th: Threshold, snap: Snapshot, bs: seq<Ballot>, more: seq<Ballot>, poll: Poll)
      returns (mid: Poll)
    requires Plays(th, snap, bs + more, poll)
    ensures Plays(th, snap, bs, mid) && (mid.status.text != Pending ==> poll == mid)
  {
    if more == [] {
      assert bs + more == bs;
      mid := poll;
    } else {
      assert Before(bs + more) == bs + Before(more) && Last(bs + more) == Last(more);
      var last :| Plays(th, snap, bs + Before(more), last) && Submits(th, snap, last, Last(more), poll);
      mid := DecidedFixed(th, snap, bs, Before(more), last);
    }
  }

  /**
   The ballot that comes first settles everything at a threshold of 1: it succeeds exactly if its voter holds all
   the power.
   */
  lemma FirstBallotSettles(th: Threshold, snap: Snapshot, order: seq<Ballot>, poll: Poll)
    requires th.Valid() && th.num == th.den && snap.Exact()
    requires order != [] && order[0].voter in snap.bonded && order[0].claim != ""
    requires Plays(th, snap, order, poll)
    ensures poll.status ==
              if snap.Power(order[0].voter) == snap.totalPower then Status(Success, order[0].claim)
              else Status(Failed, "")
  {
    var b := order[0];
    assert order == [b] + order[1..];
    var first := DecidedFixed(th, snap, [b], order[1..], poll);
    FirstDecision(th, snap, b, first);
    SupportBounds(snap, first.votes, b.claim);
    FullRatio(th, snap.Power(b.voter), snap.totalPower);
  }

  lemma VoterFirst(th: Threshold, snap: Snapshot, final: Votes, v: Bytes) returns (order: seq<Ballot>, poll: Poll)
    requires v in final
    ensures Permutes(order, final) && order[0] == Ballot(v, final[v]) && Plays(th, snap, order, poll)
  {
    var rest := BallotsOf(final, final.Keys - {v});
    order := [Ballot(v, final[v])] + rest;
    poll := PlaysExists(th, snap, order);
  }

  ghost predicate HoldsAll(snap: Snapshot, v: Bytes) {
    v in snap.bonded && snap.Power(v) == snap.totalPower
  }

  /**
   At a threshold of 1 the order can change the result exactly when one of several bonded validators holds all the
   power.
   */
  lemma FullThresholdOrderExactly(th: Threshold, snap: Snapshot, final: Votes)
    requires th.Valid() && th.num == th.den && snap.Exact() && Complete(snap, final)
    ensures OrderFree(th, snap, final) <==> forall v :: HoldsAll(snap, v) ==> snap.bonded.Keys == {v}
  {
    if v :| HoldsAll(snap, v) && snap.bonded.Keys != {v} {
      var w :| w in snap.bonded && w != v;
      HolderIsAlone(snap, v, w);
      assert final[v] in final.Values && final[w] in final.Values;
      var one, p := VoterFirst(th, snap, final, v);
      var other, q := VoterFirst(th, snap, final, w);
      FirstBallotSettles(th, snap, one, p);
      FirstBallotSettles(th, snap, other, q);
    } else {
      forall one, other, p, q |
        Permutes(one, final) && Plays(th, snap, one, p) && Permutes(other, final) && Plays(th, snap, other, q)
        ensures p.status == q.status
      {
        FullThresholdResult(th, snap, final, one, p);
        FullThresholdResult(th, snap, final, other, q);
      }
    }
  }

  lemma HolderIsAlone(snap: Snapshot, v: Bytes, w: Bytes)
    requires snap.Exact() && HoldsAll(snap, v) && w in snap.bonded && w != v
    ensures snap.Power(w) < snap.totalPower
  {
    var bonded: map<Bytes, int> := snap.bonded;
    SumRemove(bonded, v);
    EntryLeqSum(bonded - {v}, w);
  }

  lemma FullThresholdResult(th: Threshold, snap: Snapshot, final: Votes, order: seq<Ballot>, poll: Poll)
    requires th.Valid() && th.num == th.den && snap.Exact() && Complete(snap, final)
    requires forall v :: HoldsAll(snap, v) ==> snap.bonded.Keys == {v}
    requires Permutes(order, final) && Plays(th, snap, order, poll)
    ensures (forall v :: !HoldsAll(snap, v)) ==> poll.status == Status(Failed, "")
    ensures forall v :: HoldsAll(snap, v) ==> v in final && poll.status == Status(Success, final[v])
  {
    BondedNotEmpty(snap);
    var w :| w in final;
    assert Ballot(w, final[w]) in order;
    var b := order[0];
    assert b in order;
    assert b.claim in final.Values;
    FirstBallotSettles(th, snap, order, poll);
    assert snap.Power(b.voter) == snap.totalPower ==> HoldsAll(snap, b.voter);
  }

  // ---------------------------------------------------------------- from a pending poll to success

  /** At a threshold of 1, if nobody holds all the power, the first counted claim fails the poll for ever. */
  lemma {:induction false} NoHolderFails(th: Threshold, snap: Snapshot, bs: seq<Ballot>, poll: Poll)
    requires th.Valid() && th.num == th.den && snap.Exact() && (forall v :: !HoldsAll(snap, v))
    requires Plays(th, snap, bs, poll)
    ensures poll == NEW_POLL || poll.status.text == Failed
  {
    if bs != [] {
      var mid :| Plays(th, snap, Before(bs), mid) && Submits(th, snap, mid, Last(bs), poll);
      NoHolderFails(th, snap, Before(bs), mid);
      var b := Last(bs);
      if Admissible(snap, mid, b) {
        AppendBallot(th, snap, [], mid, b, poll);
        assert [] + [b] == [b];
        FirstBallotSettles(th, snap, [b], poll);
        assert !HoldsAll(snap, b.voter);
      }
    }
  }

  /** A validator with all the power succeeds at once. */
  lemma HolderSucceeds(th: Threshold, snap: Snapshot, bs: seq<Ballot>, poll: Poll, v: Bytes) returns (poll': Poll)
    requires th.Valid() && th.num == th.den && snap.Exact() && HoldsAll(snap, v)
    requires Plays(th, snap, bs, poll) && poll == NEW_POLL
    ensures Plays(th, snap, bs + [Ballot(v, "c")], poll') && poll'.status.text == Success
  {
    var b := Ballot(v, "c");
    poll' := SubmitExists(th, snap, poll, b);
    AppendBallot(th, snap, bs, poll, b, poll');
    AppendBallot(th, snap, [], poll, b, poll');
    assert [] + [b] == [b];
    FirstBallotSettles(th, snap, [b], poll');
  }

  /** Some continuation of the submissions ends in success. */
  ghost predicate CanSucceed(th: Threshold, snap: Snapshot, bs: seq<Ballot>) {
    exists bs', poll' :: bs <= bs' && Plays(th, snap, bs', poll') && poll'.status.text == Success
  }

  /**
   A pending poll can still succeed, always below a threshold of 1; at 1 only if nobody has claimed yet and one
   validator holds all the power, for there no counted claim leaves a poll pending.
   */
  lemma CanSucceedExactly(th: Threshold, snap: Snapshot, bs: seq<Ballot>, poll: Poll)
    requires th.Valid() && snap.Exact() && Plays(th, snap, bs, poll) && poll.status.text == Pending
    ensures CanSucceed(th, snap, bs) <==> th.num < th.den || exists v :: HoldsAll(snap, v)
  {
    if th.num < th.den {
      var bs', poll' := PendingCanSucceed(th, snap, bs, poll);
    } else if v :| HoldsAll(snap, v) {
      PendingIsNew(th, snap, bs, poll);
      var poll' := HolderSucceeds(th, snap, bs, poll, v);
      assert bs <= bs + [Ballot(v, "c")];
    } else {
      forall bs', poll' | bs <= bs' && Plays(th, snap, bs', poll')
        ensures poll'.status.text != Success
      {
        NoHolderFails(th, snap, bs', poll');
      }
    }
  }

  /** At a threshold of 1 a pending poll has no claim yet. */
  lemma PendingIsNew(th: Threshold, snap: Snapshot, bs: seq<Ballot>, poll: Poll)
    requires th.Valid() && th.num == th.den && snap.Exact() && Plays(th, snap, bs, poll)
    requires poll.status.text == Pending
    ensures poll == NEW_POLL
  {
    PlaysInv(th, snap, bs, poll);
    forall c ensures th.NotAbove(BestPossible(snap, poll.votes, c), snap.totalPower) {
      SupportBounds(snap, poll.votes, c);
      ThresholdMonotone(th, BestPossible(snap, poll.votes, c), snap.totalPower, snap.totalPower);
    }
  }
}
