/**
 Whole runs of one prophecy under a fixed staking snapshot: what a decision means, when it does not
 depend on the order of visiting claims or of submitting them, and that pending polls can still succeed.
 */
module Voting {
  import opened Addresses
  import opened Sums
  import opened Consensus
  import opened Histories

  datatype Ballot = Ballot(voter: Bytes, claim: string)

  // ---------------------------------------------------------------- what a decision means

  ghost predicate SomeReached(th: Threshold, snap: Snapshot, votes: Votes) {
    exists c :: c in votes.Values && th.Reached(Support(snap, votes, c), snap.totalPower)
  }

  /** No claim could exceed the threshold even with all the power not yet claimed. */
  ghost predicate Hopeless(th: Threshold, snap: Snapshot, votes: Votes) {
    forall c :: th.NotAbove(BestPossible(snap, votes, c), snap.totalPower)
  }

  ghost predicate UniqueTop(snap: Snapshot, votes: Votes) {
    forall c, d :: IsTop(snap, votes, c) && IsTop(snap, votes, d) ==> c == d
  }

  /**
   The decision, stated without the leading claim: success iff some claim reached the threshold, else failure iff
   none still can exceed it.
   */
  lemma DecisionMeaning(th: Threshold, snap: Snapshot, votes: Votes, prior: Status, st: Status)
    requires th.Valid() && Decides(th, snap, votes, prior, st) && prior.text == Pending
    ensures st.text == Success <==> SomeReached(th, snap, votes)
    ensures st.text == Failed <==> !SomeReached(th, snap, votes) && Hopeless(th, snap, votes)
    ensures st.text == Success ==>
              IsTop(snap, votes, st.finalClaim) &&
              th.Reached(Support(snap, votes, st.finalClaim), snap.totalPower)
    ensures st.text != Success ==> st.finalClaim == prior.finalClaim
  {
    var top :| IsTop(snap, votes, top) && st == Outcome(th, snap, votes, top, prior);
    forall c
      ensures th.Reached(Support(snap, votes, c), snap.totalPower) ==>
                th.Reached(Support(snap, votes, top), snap.totalPower)
      ensures th.NotAbove(BestPossible(snap, votes, top), snap.totalPower) ==>
                th.NotAbove(BestPossible(snap, votes, c), snap.totalPower)
    {
      TopDominates(snap, votes, top, c);
      ThresholdMonotone(th, Support(snap, votes, c), Support(snap, votes, top), snap.totalPower);
      ThresholdMonotone(th, BestPossible(snap, votes, c), BestPossible(snap, votes, top), snap.totalPower);
    }
  }

  lemma DecisionExists(th: Threshold, snap: Snapshot, votes: Votes, prior: Status) returns (st: Status)
    requires votes != map[]
    ensures Decides(th, snap, votes, prior, st)
  {
    var top := TopExists(snap, votes);
    st := Outcome(th, snap, votes, top, prior);
  }

  /**
   The status text never depends on the visiting order; the whole status does exactly when two leading claims tie at
   or over the threshold.
   */
  lemma OrderFreeExactly(th: Threshold, snap: Snapshot, votes: Votes, prior: Status)
    requires th.Valid() && votes != map[] && prior.text == Pending
    ensures forall s, t :: Decides(th, snap, votes, prior, s) && Decides(th, snap, votes, prior, t) ==> s.text == t.text
    ensures (forall s, t :: Decides(th, snap, votes, prior, s) && Decides(th, snap, votes, prior, t) ==> s == t)
        <==> !SomeReached(th, snap, votes) || UniqueTop(snap, votes)
  {
    forall s, t | Decides(th, snap, votes, prior, s) && Decides(th, snap, votes, prior, t)
      ensures s.text == t.text
      ensures !SomeReached(th, snap, votes) || UniqueTop(snap, votes) ==> s == t
    {
      DecisionMeaning(th, snap, votes, prior, s);
      DecisionMeaning(th, snap, votes, prior, t);
    }
    if SomeReached(th, snap, votes) && !UniqueTop(snap, votes) {
      var c, d :| IsTop(snap, votes, c) && IsTop(snap, votes, d) && c != d;
      var s := Outcome(th, snap, votes, c, prior);
      var t := Outcome(th, snap, votes, d, prior);
      assert Decides(th, snap, votes, prior, s) && Decides(th, snap, votes, prior, t);
      DecisionMeaning(th, snap, votes, prior, s);
      DecisionMeaning(th, snap, votes, prior, t);
      assert s != t;
    }
  }

  /** Over a majority threshold every replica computes the same status, whatever its map order. */
  lemma MajorityDeterminesStatus(th: Threshold, snap: Snapshot, votes: Votes, prior: Status, s: Status, t: Status)
    requires th.Majority() && snap.Covers() && prior.text == Pending
    requires Decides(th, snap, votes, prior, s) && Decides(th, snap, votes, prior, t)
    ensures s == t
  {
    DecisionMeaning(th, snap, votes, prior, s);
    DecisionMeaning(th, snap, votes, prior, t);
    if s.text == Success {
      MajorityUnique(th, snap, votes, s.finalClaim, t.finalClaim);
    }
  }

  /**
   Under any threshold, the vote that first lifts a claim over it determines the status, because only its own claim
   grew.
   */
  lemma DecidingVoteDeterminesStatus(
    th: Threshold, snap: Snapshot, votes: Votes, b: Ballot, prior: Status, s: Status, t: Status)
    requires th.Valid() && b.voter !in votes && prior.text == Pending
    requires !SomeReached(th, snap, votes)
    requires Decides(th, snap, votes[b.voter := b.claim], prior, s)
    requires Decides(th, snap, votes[b.voter := b.claim], prior, t)
    ensures s == t
    ensures s.text == Success ==> s.finalClaim == b.claim
  {
    var votes' := votes[b.voter := b.claim];
    DecisionMeaning(th, snap, votes', prior, s);
    DecisionMeaning(th, snap, votes', prior, t);
    forall c | c != b.claim && c in votes'.Values
      ensures !th.Reached(Support(snap, votes', c), snap.totalPower)
    {
      SupportAdd(snap, votes, b.voter, b.claim, c);
      var v :| v in votes' && votes'[v] == c;
      assert votes[v] == c;
    }
  }

  // ---------------------------------------------------------------- runs of submissions

  ghost predicate Admissible(snap: Snapshot, poll: Poll, b: Ballot) {
    b.voter in snap.bonded && b.claim != "" && poll.status.text == Pending && b.voter !in poll.votes
  }

  /** One call of ProcessClaim for this prophecy: an inadmissible ballot changes nothing. */
  ghost predicate Submits(th: Threshold, snap: Snapshot, poll: Poll, b: Ballot, poll': Poll) {
    if Admissible(snap, poll, b) then
      poll'.votes == poll.votes[b.voter := b.claim] &&
      Decides(th, snap, poll'.votes, poll.status, poll'.status)
    else poll' == poll
  }

  ghost predicate Plays(th: Threshold, snap: Snapshot, bs: seq<Ballot>, poll: Poll) {
    if bs == [] then poll == NEW_POLL
    else exists mid :: Plays(th, snap, Before(bs), mid) && Submits(th, snap, mid, Last(bs), poll)
  }

  lemma AppendBallot(th: Threshold, snap: Snapshot, bs: seq<Ballot>, mid: Poll, b: Ballot, poll: Poll)
    requires Plays(th, snap, bs, mid) && Submits(th, snap, mid, b, poll)
    ensures Plays(th, snap, bs + [b], poll)
  {
    assert Before(bs + [b]) == bs && Last(bs + [b]) == b;
  }

  /** What holds of every poll that a fixed staking snapshot can produce. */
  ghost predicate PollInv(th: Threshold, snap: Snapshot, poll: Poll) {
    && poll.votes.Keys <= snap.bonded.Keys
    && "" !in poll.votes.Values
    && (poll.status.text == Success <==> SomeReached(th, snap, poll.votes))
    && (poll.status.text == Failed <==>
        poll.votes != map[] && !SomeReached(th, snap, poll.votes) && Hopeless(th, snap, poll.votes))
    && (if poll.status.text == Success then
          poll.status.finalClaim in poll.votes.Values &&
          th.Reached(Support(snap, poll.votes, poll.status.finalClaim), snap.totalPower)
        else poll.status.finalClaim == "")
  }

  lemma SubmitKeepsInv(th: Threshold, snap: Snapshot, poll: Poll, b: Ballot, poll': Poll)
    requires th.Valid() && PollInv(th, snap, poll) && Submits(th, snap, poll, b, poll')
    ensures PollInv(th, snap, poll')
  {
    if Admissible(snap, poll, b) {
      DecisionMeaning(th, snap, poll'.votes, poll.status, poll'.status);
    }
  }

  lemma {:induction false} PlaysInv(th: Threshold, snap: Snapshot, bs: seq<Ballot>, poll: Poll)
    requires th.Valid() && Plays(th, snap, bs, poll)
    ensures PollInv(th, snap, poll)
  {
    if bs != [] {
      var mid :| Plays(th, snap, Before(bs), mid) && Submits(th, snap, mid, Last(bs), poll);
      PlaysInv(th, snap, Before(bs), mid);
      SubmitKeepsInv(th, snap, mid, Last(bs), poll);
    }
  }

  /** Every vote that counts was submitted. */
  lemma {:induction false} PlaysVotes(th: Threshold, snap: Snapshot, bs: seq<Ballot>, poll: Poll)
    requires Plays(th, snap, bs, poll)
    ensures forall v :: v in poll.votes ==> Ballot(v, poll.votes[v]) in bs
  {
    if bs != [] {
      var mid :| Plays(th, snap, Before(bs), mid) && Submits(th, snap, mid, Last(bs), poll);
      PlaysVotes(th, snap, Before(bs), mid);
    }
  }

  /** While a poll is pending, every ballot of a first-time bonded voter has been counted. */
  lemma {:induction false} PendingCountsAll(th: Threshold, snap: Snapshot, bs: seq<Ballot>, poll: Poll)
    requires Plays(th, snap, bs, poll) && poll.status.text == Pending
    ensures forall b :: b in bs && b.voter in snap.bonded && b.claim != "" ==> b.voter in poll.votes
  {
    if bs != [] {
      var mid :| Plays(th, snap, Before(bs), mid) && Submits(th, snap, mid, Last(bs), poll);
      PendingCountsAll(th, snap, Before(bs), mid);
    }
  }

  lemma {:induction false} PlaysExists(th: Threshold, snap: Snapshot, bs: seq<Ballot>) returns (poll: Poll)
    ensures Plays(th, snap, bs, poll)
  {
    if bs == [] {
      poll := NEW_POLL;
    } else {
      var mid := PlaysExists(th, snap, Before(bs));
      poll := SubmitExists(th, snap, mid, Last(bs));
    }
  }

  lemma SubmitExists(th: Threshold, snap: Snapshot, poll: Poll, b: Ballot) returns (poll': Poll)
    ensures Submits(th, snap, poll, b, poll')
  {
    if Admissible(snap, poll, b) {
      assert b.voter in poll.votes[b.voter := b.claim];
      var st := DecisionExists(th, snap, poll.votes[b.voter := b.claim], poll.status);
      poll' := Poll(poll.votes[b.voter := b.claim], st);
    } else {
      poll' := poll;
    }
  }

  // ---------------------------------------------------------------- early decisions are exact

  /** `more` extends `votes` by votes of bonded validators that had not claimed yet. */
  ghost predicate Continues(snap: Snapshot, votes: Votes, more: Votes) {
    && more.Keys <= votes.Keys + snap.bonded.Keys
    && forall v :: v in votes ==> v in more && more[v] == votes[v]
  }

  function Unanimous(snap: Snapshot, votes: Votes, c: string): Votes {
    map v | v in votes.Keys + snap.bonded.Keys :: if v in votes then votes[v] else c
  }

  lemma UnanimousReachesBest(snap: Snapshot, votes: Votes, c: string)
    requires snap.Exact() && votes.Keys <= snap.bonded.Keys
    ensures Support(snap, Unanimous(snap, votes, c), c) == BestPossible(snap, votes, c)
  {
    var more := Unanimous(snap, votes, c);
    AllClaimed(snap, more);
    var late := map v | v in more && v !in votes :: snap.Power(v);
    SumSplit(PowerMap(snap, more), PowerMap(snap, votes), late);
    SumSplit(SupportMap(snap, more, c), SupportMap(snap, votes, c), late);
  }

  /**
   A poll is hopeless exactly when no continuation by the remaining validators lifts any claim above the threshold.
   */
  lemma HopelessExactly(th: Threshold, snap: Snapshot, votes: Votes)
    requires th.Valid() && snap.Exact() && votes.Keys <= snap.bonded.Keys
    ensures Hopeless(th, snap, votes) <==>
              forall more, c :: Continues(snap, votes, more) ==> th.NotAbove(Support(snap, more, c), snap.totalPower)
  {
    if Hopeless(th, snap, votes) {
      forall more, c | Continues(snap, votes, more)
        ensures th.NotAbove(Support(snap, more, c), snap.totalPower)
      {
        SupportMonotone(snap, votes, more, c);
        SupportBounds(snap, more, c);
        ThresholdMonotone(th, Support(snap, more, c), BestPossible(snap, votes, c), snap.totalPower);
      }
    } else {
      var c :| !th.NotAbove(BestPossible(snap, votes, c), snap.totalPower);
      UnanimousReachesBest(snap, votes, c);
      assert Continues(snap, votes, Unanimous(snap, votes, c));
    }
  }

  /** Each accepted claim never lowers the highest power and never raises the best possible power. */
  lemma TallyMonotone(snap: Snapshot, votes: Votes, b: Ballot, top: string, top': string)
    requires b.voter !in votes
    requires IsTop(snap, votes, top) && IsTop(snap, votes[b.voter := b.claim], top')
    ensures Support(snap, votes, top) <= Support(snap, votes[b.voter := b.claim], top')
    ensures BestPossible(snap, votes[b.voter := b.claim], top') <= BestPossible(snap, votes, top)
  {
    SupportAdd(snap, votes, b.voter, b.claim, top);
    SupportAdd(snap, votes, b.voter, b.claim, top');
    TopDominates(snap, votes[b.voter := b.claim], top', top);
    TopDominates(snap, votes, top, top');
  }

  /** Under one staking snapshot, once all bonded validators have claimed the poll is decided. */
  lemma AllClaimedDecides(th: Threshold, snap: Snapshot, poll: Poll)
    requires th.Valid() && snap.Exact() && PollInv(th, snap, poll)
    requires poll.votes.Keys == snap.bonded.Keys && poll.votes != map[]
    ensures poll.status.text != Pending
  {
    AllClaimed(snap, poll.votes);
    if !SomeReached(th, snap, poll.votes) {
      forall c ensures th.NotAbove(BestPossible(snap, poll.votes, c), snap.totalPower) {
        if c !in poll.votes.Values {
          UnvotedClaimHasNoSupport(snap, poll.votes, c);
          assert 0 <= th.num * snap.totalPower;
        }
      }
    }
  }

  /**
   Below a threshold of 1, from every pending poll some continuation of accepted claims reaches Success: let the
   validators that have not claimed yet agree with a claim that still has hope. Their number strictly decreases.
   */
  lemma {:induction false} PendingCanSucceed(th: Threshold, snap: Snapshot, bs: seq<Ballot>, poll: Poll)
      returns (bs': seq<Ballot>, poll': Poll)
    requires th.Valid() && snap.Exact() && Plays(th, snap, bs, poll)
    requires poll.status.text == Pending && th.num < th.den
    ensures bs <= bs' && Plays(th, snap, bs', poll')
    ensures poll'.status.text == Success
    ensures |poll'.votes| == |poll.votes| + |bs'| - |bs|
    decreases snap.bonded.Keys - poll.votes.Keys
  {
    PlaysInv(th, snap, bs, poll);
    var c := HopefulClaim(th, snap, poll);
    if poll.votes.Keys == snap.bonded.Keys {
      BondedNotEmpty(snap);
      AllClaimedDecides(th, snap, poll);
    }
    var v :| v in snap.bonded && v !in poll.votes;
    var mid := AgreeingVote(th, snap, poll, Ballot(v, c));
    var more := bs + [Ballot(v, c)];
    assert Before(more) == bs && Last(more) == Ballot(v, c);
    assert Plays(th, snap, more, mid);
    if mid.status.text == Success {
      bs', poll' := more, mid;
    } else {
      bs', poll' := PendingCanSucceed(th, snap, more, mid);
      assert bs <= more <= bs';
    }
  }

  lemma AgreeingVote(th: Threshold, snap: Snapshot, poll: Poll, b: Ballot) returns (poll': Poll)
    requires th.Valid() && PollInv(th, snap, poll) && Admissible(snap, poll, b)
    requires !th.NotAbove(BestPossible(snap, poll.votes, b.claim), snap.totalPower)
    ensures Submits(th, snap, poll, b, poll') && poll'.status.text != Failed
    ensures poll'.votes == poll.votes[b.voter := b.claim]
  {
    poll' := SubmitExists(th, snap, poll, b);
    DecisionMeaning(th, snap, poll'.votes, poll.status, poll'.status);
    SupportAdd(snap, poll.votes, b.voter, b.claim, b.claim);
    assert BestPossible(snap, poll'.votes, b.claim) == BestPossible(snap, poll.votes, b.claim);
  }

  lemma HopefulClaim(th: Threshold, snap: Snapshot, poll: Poll) returns (c: string)
    requires th.Valid() && PollInv(th, snap, poll)
    requires poll.status.text == Pending && 0 < snap.totalPower && th.num < th.den
    ensures c != "" && !th.NotAbove(BestPossible(snap, poll.votes, c), snap.totalPower)
  {
    if poll.votes == map[] {
      c := "c";
      EmptyTally(snap, c);
      assert th.num * snap.totalPower < th.den * snap.totalPower;
      return;
    }
    var d :| !th.NotAbove(BestPossible(snap, poll.votes, d), snap.totalPower);
    c := TopExists(snap, poll.votes);
    TopDominates(snap, poll.votes, c, d);
    ThresholdMonotone(th, BestPossible(snap, poll.votes, d), BestPossible(snap, poll.votes, c), snap.totalPower);
  }

  // ---------------------------------------------------------------- liveness and order independence

  ghost function AllFor(vs: set<Bytes>, c: string): Votes {
    map v | v in vs :: c
  }

  /** The votes of a poll together with the votes that `vs` still owes to claim c. */
  ghost function Joined(votes: Votes, vs: set<Bytes>, c: string): Votes {
    map v | v in votes.Keys + vs :: if v in votes then votes[v] else c
  }

  lemma JoinedCovers(snap: Snapshot, votes: Votes, vs: set<Bytes>, c: string)
    requires forall v :: v in vs && v in votes ==> votes[v] == c
    ensures Support(snap, AllFor(vs, c), c) <= Support(snap, Joined(votes, vs, c), c)
    ensures forall d :: Support(snap, votes, d) <= Support(snap, Joined(votes, vs, c), d)
  {
    SupportMonotone(snap, AllFor(vs, c), Joined(votes, vs, c), c);
    forall d ensures Support(snap, votes, d) <= Support(snap, Joined(votes, vs, c), d) {
      SupportMonotone(snap, votes, Joined(votes, vs, c), d);
    }
  }

  /** Validators `vs` hold strictly more than the threshold and none of them voted for anything but c. */
  ghost predicate Commits(th: Threshold, snap: Snapshot, votes: Votes, vs: set<Bytes>, c: string) {
    && vs <= snap.bonded.Keys
    && !th.NotAbove(Support(snap, AllFor(vs, c), c), snap.totalPower)
    && forall v :: v in vs && v in votes ==> votes[v] == c
  }

  lemma BackedNotHopeless(th: Threshold, snap: Snapshot, votes: Votes, vs: set<Bytes>, c: string)
    requires th.Valid() && snap.Exact() && votes.Keys <= snap.bonded.Keys && Commits(th, snap, votes, vs, c)
    ensures !Hopeless(th, snap, votes)
    ensures !th.NotAbove(Support(snap, Joined(votes, vs, c), c), snap.totalPower)
  {
    var more := Joined(votes, vs, c);
    JoinedCovers(snap, votes, vs, c);
    ThresholdMonotone(th, Support(snap, AllFor(vs, c), c), Support(snap, more, c), snap.totalPower);
    assert Continues(snap, votes, more);
    HopelessExactly(th, snap, votes);
  }

  lemma BackedOnlyReaches(th: Threshold, snap: Snapshot, votes: Votes, vs: set<Bytes>, c: string, d: string)
    requires th.Majority() && snap.Exact() && votes.Keys <= snap.bonded.Keys && Commits(th, snap, votes, vs, c)
    requires th.Reached(Support(snap, votes, d), snap.totalPower)
    ensures c == d
  {
    var more := Joined(votes, vs, c);
    BackedNotHopeless(th, snap, votes, vs, c);
    JoinedCovers(snap, votes, vs, c);
    ThresholdMonotone(th, Support(snap, votes, d), Support(snap, more, d), snap.totalPower);
    MajorityUnique(th, snap, more, c, d);
  }

  lemma BackedReaches(th: Threshold, snap: Snapshot, votes: Votes, vs: set<Bytes>, c: string)
    requires th.Valid() && snap.Exact() && votes.Keys <= snap.bonded.Keys && Commits(th, snap, votes, vs, c)
    requires vs <= votes.Keys
    ensures SomeReached(th, snap, votes)
  {
    BackedNotHopeless(th, snap, votes, vs, c);
    assert Joined(votes, vs, c) == votes;
    assert 0 <= th.num * snap.totalPower;
    if c !in votes.Values {
      UnvotedClaimHasNoSupport(snap, votes, c);
    }
  }

  /**
   Validators with strictly more than a majority threshold, who all submit c and nothing else, decide the
   poll for c, whatever anyone else submits, how often, and in which order.
   */
  lemma AgreeingMajorityWins(th: Threshold, snap: Snapshot, bs: seq<Ballot>, poll: Poll, vs: set<Bytes>, c: string)
    requires th.Majority() && snap.Exact() && c != "" && vs <= snap.bonded.Keys
    requires !th.NotAbove(Support(snap, AllFor(vs, c), c), snap.totalPower)
    requires forall v :: v in vs ==> Ballot(v, c) in bs
    requires forall b :: b in bs && b.voter in vs ==> b.claim == c
    requires Plays(th, snap, bs, poll)
    ensures poll.status == Status(Success, c)
  {
    PlaysInv(th, snap, bs, poll);
    PlaysVotes(th, snap, bs, poll);
    assert Commits(th, snap, poll.votes, vs, c);
    BackedNotHopeless(th, snap, poll.votes, vs, c);
    if poll.status.text == Pending {
      PendingCountsAll(th, snap, bs, poll);
      forall v | v in vs ensures v in poll.votes {
        assert Ballot(v, c) in bs;
      }
      BackedReaches(th, snap, poll.votes, vs, c);
    }
    BackedOnlyReaches(th, snap, poll.votes, vs, c, poll.status.finalClaim);
  }

  /** The ballots of `order`, at least one for each validator in `final`, in some order. */
  ghost predicate Permutes(order: seq<Ballot>, final: Votes) {
    && (forall v :: v in final ==> Ballot(v, final[v]) in order)
    && (forall b :: b in order ==> b.voter in final && final[b.voter] == b.claim)
  }

  /**
   Whatever the order in which all bonded validators vote, the result is fixed unless a claim ends exactly at the
   threshold.
   */
  lemma OrderIndependence(th: Threshold, snap: Snapshot, final: Votes, order: seq<Ballot>, poll: Poll)
    requires th.Majority() && snap.Exact()
    requires final.Keys == snap.bonded.Keys && "" !in final.Values
    requires Permutes(order, final) && Plays(th, snap, order, poll)
    ensures forall c :: !th.NotAbove(Support(snap, final, c), snap.totalPower) ==> poll.status == Status(Success, c)
    ensures (forall c :: !th.Reached(Support(snap, final, c), snap.totalPower)) ==> poll.status == Status(Failed, "")
  {
    PlaysInv(th, snap, order, poll);
    PlaysVotes(th, snap, order, poll);
    forall c | !th.NotAbove(Support(snap, final, c), snap.totalPower)
      ensures poll.status == Status(Success, c)
    {
      SupportersWin(th, snap, final, order, poll, c);
    }
    if poll.status.text == Pending {
      PendingCountsAll(th, snap, order, poll);
      BondedNotEmpty(snap);
      forall v | v in snap.bonded ensures v in poll.votes {
        assert Ballot(v, final[v]) in order && final[v] in final.Values;
      }
      AllClaimedDecides(th, snap, poll);
    }
    if poll.status.text == Success {
      SupportMonotone(snap, poll.votes, final, poll.status.finalClaim);
      ThresholdMonotone(th, Support(snap, poll.votes, poll.status.finalClaim),
                        Support(snap, final, poll.status.finalClaim), snap.totalPower);
    }
  }

  lemma SupportersWin(th: Threshold, snap: Snapshot, final: Votes, order: seq<Ballot>, poll: Poll, c: string)
    requires th.Majority() && snap.Exact()
    requires final.Keys == snap.bonded.Keys && "" !in final.Values
    requires Permutes(order, final) && Plays(th, snap, order, poll)
    requires !th.NotAbove(Support(snap, final, c), snap.totalPower)
    ensures poll.status == Status(Success, c)
  {
    var vs := set v | v in final && final[v] == c;
    assert SupportMap(snap, AllFor(vs, c), c) == SupportMap(snap, final, c);
    assert 0 <= th.num * snap.totalPower;
    if c !in final.Values {
      UnvotedClaimHasNoSupport(snap, final, c);
    }
    AgreeingMajorityWins(th, snap, order, poll, vs, c);
  }

  lemma BondedNotEmpty(snap: Snapshot)
    requires snap.Exact()
    ensures snap.bonded.Keys != {}
  {
    var none: map<Bytes, int> := map[];
    assert MapSum(none) == 0;
    assert snap.bonded != map[];
  }

  // ---------------------------------------------------------------- the boundary cases

  /**
   Failure uses <= where success uses >=, so a failed poll may still have been able to reach the threshold:
   exactly when its leading claim's best possible power equals the threshold.
   */
  lemma FailureSoundExactly(th: Threshold, snap: Snapshot, votes: Votes, top: string)
    requires th.Valid() && snap.Exact() && votes.Keys <= snap.bonded.Keys
    requires IsTop(snap, votes, top) && Hopeless(th, snap, votes)
    ensures (forall more, c :: Continues(snap, votes, more) ==> !th.Reached(Support(snap, more, c), snap.totalPower))
        <==> BestPossible(snap, votes, top) * th.den != th.num * snap.totalPower
  {
    var best := BestPossible(snap, votes, top);
    assert th.NotAbove(best, snap.totalPower);
    if best * th.den == th.num * snap.totalPower {
      UnanimousReachesBest(snap, votes, top);
      assert Continues(snap, votes, Unanimous(snap, votes, top));
    } else {
      forall more, c | Continues(snap, votes, more)
        ensures !th.Reached(Support(snap, more, c), snap.totalPower)
      {
        TopDominates(snap, votes, top, c);
        SupportMonotone(snap, votes, more, c);
        SupportBounds(snap, more, c);
        ThresholdMonotone(th, Support(snap, more, c), best, snap.totalPower);
      }
    }
  }

  /**
   At a threshold of 1 nothing ever stays pending: every claim either brings all the power at once or fails the
   poll.
   */
  lemma FullThresholdNeverPends(th: Threshold, snap: Snapshot, votes: Votes, st: Status)
    requires th.Valid() && th.num == th.den && snap.Covers()
    requires Decides(th, snap, votes, NEW_STATUS, st)
    ensures st.text != Pending
    ensures st.text == Success <==> exists c :: c in votes.Values && Support(snap, votes, c) == snap.totalPower
  {
    DecisionMeaning(th, snap, votes, NEW_STATUS, st);
    forall c
      ensures th.NotAbove(BestPossible(snap, votes, c), snap.totalPower)
      ensures th.Reached(Support(snap, votes, c), snap.totalPower) <==> Support(snap, votes, c) == snap.totalPower
    {
      SupportBounds(snap, votes, c);
      FullRatio(th, Support(snap, votes, c), snap.totalPower);
      ThresholdMonotone(th, BestPossible(snap, votes, c), snap.totalPower, snap.totalPower);
    }
  }

  lemma FullRatio(th: Threshold, power: int, total: int)
    requires th.Valid() && th.num == th.den && power <= total
    ensures th.Reached(power, total) <==> power == total
  {
    assert (total - power) * th.den == total * th.den - power * th.den;
  }

  // ---------------------------------------------------------------- concrete polls

  const V1: Bytes := [1]
  const V2: Bytes := [2]
  const V3: Bytes := [3]
  const SEVEN_TENTHS := Threshold(7, 10)
  const POWERS_343 := Snapshot(map[V1 := 3, V2 := 4, V3 := 3], 10)

  lemma EmptyTally(snap: Snapshot, c: string)
    ensures Support(snap, map[], c) == 0 && Claimed(snap, map[]) == 0
  {
    var none: Votes := map[];
    assert SupportMap(snap, none, c) == map[] && PowerMap(snap, none) == map[];
  }

  lemma FirstDecision(th: Threshold, snap: Snapshot, b: Ballot, poll: Poll)
    requires th.Valid() && b.voter in snap.bonded && b.claim != ""
    requires Plays(th, snap, [b], poll)
    ensures poll.votes == map[b.voter := b.claim]
    ensures poll.status == Outcome(th, snap, poll.votes, b.claim, NEW_STATUS)
    ensures Support(snap, poll.votes, b.claim) == Claimed(snap, poll.votes) == snap.Power(b.voter)
  {
    assert Before([b]) == [];
    var mid :| Plays(th, snap, [], mid) && Submits(th, snap, mid, b, poll);
    EmptyTally(snap, b.claim);
    SupportAdd(snap, map[], b.voter, b.claim, b.claim);
    assert poll.votes == map[b.voter := b.claim];
  }

  /** Without a majority threshold the order of submission decides the claim: 5 against 5 at one half. */
  lemma HalfThresholdOrderMatters()
    ensures
      var th, snap := Threshold(1, 2), Snapshot(map[V1 := 5, V2 := 5], 10);
      var a, b := Ballot(V1, "a"), Ballot(V2, "b");
      forall p, q :: Plays(th, snap, [a, b], p) && Plays(th, snap, [b, a], q) ==>
        p.status == Status(Success, "a") && q.status == Status(Success, "b")
  {
    var th, snap := Threshold(1, 2), Snapshot(map[V1 := 5, V2 := 5], 10);
    var a, b := Ballot(V1, "a"), Ballot(V2, "b");
    forall p, q | Plays(th, snap, [a, b], p) && Plays(th, snap, [b, a], q)
      ensures p.status == Status(Success, "a") && q.status == Status(Success, "b")
    {
      assert Before([a, b]) == [a] && Before([b, a]) == [b];
      var p1 :| Plays(th, snap, [a], p1) && Submits(th, snap, p1, b, p);
      var q1 :| Plays(th, snap, [b], q1) && Submits(th, snap, q1, a, q);
      FirstDecision(th, snap, a, p1);
      FirstDecision(th, snap, b, q1);
    }
  }

  /**
   Exactly at the threshold the order matters too: of powers 3, 4, 3 at 7/10, the disagreeing 3s coming first fail a
   claim that 7/10 supports.
   */
  lemma ExactThresholdOrderMatters()
    ensures
      var a1, a2, b := Ballot(V1, "a"), Ballot(V2, "a"), Ballot(V3, "b");
      forall p, q ::
        Plays(SEVEN_TENTHS, POWERS_343, [a1, a2, b], p) && Plays(SEVEN_TENTHS, POWERS_343, [a1, b, a2], q) ==>
        p.status == Status(Success, "a") && q.status == Status(Failed, "")
  {
    var a1, a2, b := Ballot(V1, "a"), Ballot(V2, "a"), Ballot(V3, "b");
    assert V2[0] != V3[0];
    forall p | Plays(SEVEN_TENTHS, POWERS_343, [a1, a2, b], p)
      ensures p.status == Status(Success, "a")
    {
      SecondOfThree(a2, b, p);
    }
    forall q | Plays(SEVEN_TENTHS, POWERS_343, [a1, b, a2], q)
      ensures q.status == Status(Failed, "")
    {
      SecondOfThree(b, a2, q);
    }
  }

  /** After V1, either other ballot decides the poll, so the third one changes nothing. */
  lemma SecondOfThree(b: Ballot, c: Ballot, poll: Poll)
    requires b == Ballot(V2, "a") || b == Ballot(V3, "b")
    requires Plays(SEVEN_TENTHS, POWERS_343, [Ballot(V1, "a"), b, c], poll)
    ensures poll.status == if b.voter == V2 then Status(Success, "a") else Status(Failed, "")
  {
    var th, snap, a := SEVEN_TENTHS, POWERS_343, Ballot(V1, "a");
    assert Before([a, b, c]) == [a, b] && Before([a, b]) == [a];
    var second :| Plays(th, snap, [a, b], second) && Submits(th, snap, second, c, poll);
    var first :| Plays(th, snap, [a], first) && Submits(th, snap, first, b, second);
    FirstDecision(th, snap, a, first);
    SecondDecision(th, snap, first, b, second);
  }

  lemma SecondDecision(th: Threshold, snap: Snapshot, first: Poll, b: Ballot, poll: Poll)
    requires th == SEVEN_TENTHS && snap == POWERS_343
    requires first == Poll(map[V1 := "a"], NEW_STATUS)
    requires b == Ballot(V2, "a") || b == Ballot(V3, "b")
    requires Submits(th, snap, first, b, poll)
    ensures poll.status == if b.voter == V2 then Status(Success, "a") else Status(Failed, "")
  {
    assert V1 != V2 && V1 != V3;
    forall c
      ensures Support(snap, first.votes, c) == if c == "a" then 3 else 0
      ensures Claimed(snap, first.votes) == 3
    {
      EmptyTally(snap, c);
      SupportAdd(snap, map[], V1, "a", c);
    }
    forall c
      ensures Support(snap, poll.votes, c) ==
                Support(snap, first.votes, c) + if c == b.claim then snap.Power(b.voter) else 0
      ensures Claimed(snap, poll.votes) == 3 + snap.Power(b.voter)
    {
      SupportAdd(snap, first.votes, b.voter, b.claim, c);
    }
    DecisionMeaning(th, snap, poll.votes, first.status, poll.status);
    assert Support(snap, poll.votes, "a") == if b.voter == V2 then 7 else 3;
    if b.voter == V2 {
      assert poll.votes[V1] in poll.votes.Values;
      assert Support(snap, poll.votes, poll.status.finalClaim) == if poll.status.finalClaim == "a" then 7 else 0;
    } else {
    }
  }
}
