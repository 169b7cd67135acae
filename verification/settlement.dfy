/**
 Game resolution (game_logic.go, ResolveGame): total the stakes of every
 option, split the options into winners and losers by the game mode, record
 each option's result, and settle every vote: a vote on a winning option is
 credited its stake plus its share of the losing pool, a vote on a losing
 option records the loss of its stake.

 ResolveGame is the resolution with the all-zero minority case corrected (see
 ResolveGameAsWritten, which keeps the source's handling of that case).
 */
module Settlement {
  import opened Wrappers
  import opened Outcomes
  import opened Payout
  import opened Votes

  datatype GameMode = Majority | Minority

  /** What is stored for each option once the game is resolved. */
  datatype OptionResult = OptionResult(winner: bool, totalValue: int, totalVotes: int)

  /** The outcome recorded for one vote: won or lost, and the recorded change
      (the credit for a win, minus the stake for a loss). */
  datatype VoteResult = VoteResult(vote: Vote, win: bool, change: int)

  datatype Resolution = Resolution(options: seq<OptionResult>, results: seq<VoteResult>)

  /** NoOptions stands for the source's out-of-range access on a game without
      options; NoWinner is its "error in resolving game". */
  datatype ResolveError = NoOptions | NoWinner

  /** The winner determination the game mode selects. */
  function Decide(mode: GameMode, totals: seq<int>): (s: Split)
    requires |totals| > 0
    ensures Partitions(s, |totals|)
  {
    if mode == Majority then ResolveMajority(totals) else ResolveMinority(totals)
  }

  lemma PartitionBounded(s: Split, n: nat)
    requires Partitions(s, n)
    ensures IndicesBelow(s.winners, n) && IndicesBelow(s.losers, n)
  {
    RangeCounts(n);
    forall k | 0 <= k < |s.winners|
      ensures s.winners[k] < n
    {
      assert s.winners[k] in multiset(s.winners + s.losers);
    }
    forall k | 0 <= k < |s.losers|
      ensures s.losers[k] < n
    {
      assert s.losers[k] in multiset(s.winners + s.losers);
    }
  }

  /** An option of a partition is on exactly one side. */
  lemma PartitionSides(s: Split, n: nat)
    requires Partitions(s, n)
    ensures forall i :: 0 <= i < n ==> (i in s.winners <==> i !in s.losers)
  {
    RangeCounts(n);
    forall i | 0 <= i < n
      ensures i in s.winners <==> i !in s.losers
    {
      assert multiset(s.winners + s.losers) == multiset(s.winners) + multiset(s.losers);
      assert multiset(Range(n))[i] == 1;
      assert multiset(s.winners)[i] + multiset(s.losers)[i] == 1;
    }
  }

  /** The stored result of every option, as the two loops over the winning and
      the losing indices write it: a winning option is flagged, a losing one is
      not, and each carries its total and its vote count. */
  function OptionResults(votes: seq<seq<Vote>>, totals: seq<int>, s: Split): (r: seq<OptionResult>)
    requires |totals| == |votes| && Partitions(s, |votes|)
    ensures |r| == |votes|
    ensures forall i :: 0 <= i < |votes| ==>
              (r[i].winner <==> i in s.winners) && (!r[i].winner <==> i in s.losers)
    ensures forall i :: 0 <= i < |votes| ==> r[i].totalValue == totals[i] && r[i].totalVotes == |votes[i]|
  {
    PartitionSides(s, |votes|);
    seq(|votes|, i requires 0 <= i < |votes| => OptionResult(i in s.winners, totals[i], |votes[i]|))
  }

  /** Winning votes, each credited its stake plus its share of the losing pool. */
  function WinnerResults(vs: seq<Vote>, winPool: int, losePool: int): (r: seq<VoteResult>)
    ensures |r| == |vs|
    ensures forall k :: 0 <= k < |vs| ==> r[k].vote == vs[k] && r[k].win
    ensures forall k :: 0 <= k < |vs| ==> r[k].change == Credit(vs[k].money, winPool, losePool)
  {
    seq(|vs|, k requires 0 <= k < |vs| =>
      VoteResult(vs[k], true, Credit(vs[k].money, winPool, losePool)))
  }

  /** Losing votes, each recording the loss of its stake. */
  function LoserResults(vs: seq<Vote>): (r: seq<VoteResult>)
    ensures |r| == |vs|
    ensures forall k :: 0 <= k < |vs| ==> r[k].vote == vs[k] && !r[k].win
    ensures forall k :: 0 <= k < |vs| ==> r[k].change + vs[k].money == 0
  {
    seq(|vs|, k requires 0 <= k < |vs| => VoteResult(vs[k], false, -vs[k].money))
  }

  /** The settlement loops: every vote of every winning option first, then every
      vote of every losing option, with the pools summed over those options. */
  function Payouts(votes: seq<seq<Vote>>, winIdx: seq<nat>, loseIdx: seq<nat>): (r: seq<VoteResult>)
    requires IndicesBelow(winIdx, |votes|) && IndicesBelow(loseIdx, |votes|)
    ensures var g, h := Gather(votes, winIdx), Gather(votes, loseIdx);
            |r| == |g| + |h| &&
            (forall k :: 0 <= k < |g| ==> r[k].vote == g[k] && r[k].win) &&
            (forall k :: |g| <= k < |r| ==> r[k].vote == h[k - |g|] && !r[k].win)
    ensures var g, h := Gather(votes, winIdx), Gather(votes, loseIdx);
            var winPool, losePool := SumAt(Totals(votes), winIdx), SumAt(Totals(votes), loseIdx);
            (forall k :: 0 <= k < |g| ==> r[k].change == Credit(g[k].money, winPool, losePool)) &&
            (forall k :: |g| <= k < |r| ==> r[k].change == -h[k - |g|].money)
  {
    var totals := Totals(votes);
    WinnerResults(Gather(votes, winIdx), SumAt(totals, winIdx), SumAt(totals, loseIdx))
    + LoserResults(Gather(votes, loseIdx))
  }

  /** The two settlement loops' results, one after the other. */
  lemma PayoutsParts(votes: seq<seq<Vote>>, winIdx: seq<nat>, loseIdx: seq<nat>)
    requires IndicesBelow(winIdx, |votes|) && IndicesBelow(loseIdx, |votes|)
    ensures Payouts(votes, winIdx, loseIdx)
         == WinnerResults(Gather(votes, winIdx), SumAt(Totals(votes), winIdx), SumAt(Totals(votes), loseIdx))
            + LoserResults(Gather(votes, loseIdx))
  {
  }

  /** The options whose votes are settled as won and as lost. When no option
      wins (a minority game where every total is zero) every option is settled
      as a winner and none as a loser. */
  function SettledSides(s: Split): (r: (seq<nat>, seq<nat>))
    ensures multiset(r.0 + r.1) == multiset(s.winners + s.losers)
    ensures |s.winners| > 0 ==> r.0 == s.winners && r.1 == s.losers
    ensures |s.winners| == 0 ==> r.1 == []
  {
    if |s.winners| == 0 then (s.losers, []) else (s.winners, s.losers)
  }

  /** The source's version of SettledSides: the losers are copied to the winners
      but are not removed from the losers. */
  function SettledSidesAsWritten(s: Split): (r: (seq<nat>, seq<nat>))
    ensures |s.winners| > 0 ==> r.0 == s.winners && r.1 == s.losers
    ensures |s.winners| == 0 ==> multiset(r.0 + r.1) == multiset(s.losers) + multiset(s.losers)
    ensures |s.winners| == 0 ==> r.0 == s.losers && r.1 == s.losers
  {
    if |s.winners| == 0 then (s.losers, s.losers) else (s.winners, s.losers)
  }

  /** ResolveGame, with the all-zero minority case settling every vote once. */
  function ResolveGame(mode: GameMode, votes: seq<seq<Vote>>): (r: Result<Resolution, ResolveError>)
    ensures |votes| == 0 <==> r == Err(NoOptions)
    ensures |votes| > 0 ==> r.Ok?
    ensures r.Ok? ==> |r.value.options| == |votes|
    ensures r.Ok? ==> forall i :: 0 <= i < |votes| ==>
              r.value.options[i].totalValue == Sum(Stakes(votes[i]))
              && r.value.options[i].totalVotes == |votes[i]|
  {
    if |votes| == 0 then Err(NoOptions)
    else
      var totals := Totals(votes);
      var s := Decide(mode, totals);
      PartitionBounded(s, |votes|);
      MajorityWinners(totals);
      if |s.winners| == 0 && mode != Minority then
        Err(NoWinner)
      else
        var (winIdx, loseIdx) := SettledSides(s);
        Ok(Resolution(OptionResults(votes, totals, s), Payouts(votes, winIdx, loseIdx)))
  }

  /** ResolveGame as the source writes it. */
  function ResolveGameAsWritten(mode: GameMode, votes: seq<seq<Vote>>): (r: Result<Resolution, ResolveError>)
    ensures |votes| == 0 <==> r == Err(NoOptions)
    ensures |votes| > 0 ==> r.Ok?
  {
    if |votes| == 0 then Err(NoOptions)
    else
      var totals := Totals(votes);
      var s := Decide(mode, totals);
      PartitionBounded(s, |votes|);
      MajorityWinners(totals);
      if |s.winners| == 0 && mode != Minority then
        Err(NoWinner)
      else
        var (winIdx, loseIdx) := SettledSidesAsWritten(s);
        Ok(Resolution(OptionResults(votes, totals, s), Payouts(votes, winIdx, loseIdx)))
  }

  // ---------------------------------------------------------------- properties

  /** The votes the results settle, in order. */
  function SettledVotes(results: seq<VoteResult>): (r: seq<Vote>)
    ensures |r| == |results|
  {
    seq(|results|, k requires 0 <= k < |results| => results[k].vote)
  }

  /** What each result credits: the recorded change of a win, nothing for a loss. */
  function Credits(results: seq<VoteResult>): (r: seq<int>)
    ensures |r| == |results|
  {
    seq(|results|, k requires 0 <= k < |results| => if results[k].win then results[k].change else 0)
  }

  /** One for each won result. */
  function WinMarks(results: seq<VoteResult>): (r: seq<int>)
    ensures |r| == |results|
  {
    seq(|results|, k requires 0 <= k < |results| => if results[k].win then 1 else 0)
  }

  /** All the stake money of the game. */
  function Pot(votes: seq<seq<Vote>>): int
  {
    Sum(Totals(votes))
  }

  /** The stored winner flags of a majority game mark exactly the options whose
      total is the largest. */
  lemma MajorityFlags(votes: seq<seq<Vote>>, i: nat)
    requires 0 <= i < |votes|
    ensures ResolveGame(Majority, votes).value.options[i].winner <==>
              forall k :: 0 <= k < |votes| ==> Totals(votes)[k] <= Totals(votes)[i]
  {
    MajorityWinners(Totals(votes));
  }

  /** The stored winner flags of a minority game mark exactly the options holding
      the smallest non-zero total; a zero total is never flagged. */
  lemma MinorityFlags(votes: seq<seq<Vote>>, i: nat)
    requires 0 <= i < |votes|
    ensures ResolveGame(Minority, votes).value.options[i].winner <==>
              Totals(votes)[i] != 0 &&
              forall k :: 0 <= k < |votes| && Totals(votes)[k] != 0 ==> Totals(votes)[i] <= Totals(votes)[k]
  {
    MinorityWinners(Totals(votes));
  }

  lemma SettledVotesOfPayouts(votes: seq<seq<Vote>>, winIdx: seq<nat>, loseIdx: seq<nat>)
    requires IndicesBelow(winIdx, |votes|) && IndicesBelow(loseIdx, |votes|)
    ensures IndicesBelow(winIdx + loseIdx, |votes|)
    ensures SettledVotes(Payouts(votes, winIdx, loseIdx)) == Gather(votes, winIdx + loseIdx)
  {
    GatherConcat(votes, winIdx, loseIdx);
  }

  /** The results of a resolved game are the payouts of its settled sides. */
  lemma ResolvedResults(mode: GameMode, votes: seq<seq<Vote>>)
    requires |votes| > 0
    ensures var s := Decide(mode, Totals(votes));
            IndicesBelow(SettledSides(s).0, |votes|) && IndicesBelow(SettledSides(s).1, |votes|) &&
            ResolveGame(mode, votes).value.results == Payouts(votes, SettledSides(s).0, SettledSides(s).1) &&
            ResolveGame(mode, votes).value.options == OptionResults(votes, Totals(votes), s)
  {
    PartitionBounded(Decide(mode, Totals(votes)), |votes|);
  }

  lemma RangeBelow(n: nat)
    ensures IndicesBelow(Range(n), n)
  {
  }

  /** Settling the sides of a partition settles every vote exactly once. */
  lemma SidesSettleOnce(votes: seq<seq<Vote>>, s: Split)
    requires Partitions(s, |votes|)
    requires IndicesBelow(SettledSides(s).0, |votes|) && IndicesBelow(SettledSides(s).1, |votes|)
    ensures multiset(SettledVotes(Payouts(votes, SettledSides(s).0, SettledSides(s).1)))
         == multiset(AllVotes(votes))
  {
    var (winIdx, loseIdx) := SettledSides(s);
    SettledVotesOfPayouts(votes, winIdx, loseIdx);
    assert multiset(winIdx + loseIdx) == multiset(s.winners + s.losers) by {
      if |s.winners| == 0 {
        assert winIdx + loseIdx == s.losers;
        assert s.winners + s.losers == s.losers;
      }
    }
    RangeBelow(|votes|);
    GatherPermutation(votes, winIdx + loseIdx, Range(|votes|));
  }

  /** Every vote of the game is settled exactly once. */
  lemma EachVoteSettledOnce(mode: GameMode, votes: seq<seq<Vote>>)
    requires |votes| > 0
    ensures multiset(SettledVotes(ResolveGame(mode, votes).value.results)) == multiset(AllVotes(votes))
  {
    ResolvedResults(mode, votes);
    SidesSettleOnce(votes, Decide(mode, Totals(votes)));
  }

  /** A won vote is never credited less than its stake; a lost vote records the
      loss of exactly its stake. */
  lemma WinnerGetsStakeBack(mode: GameMode, votes: seq<seq<Vote>>)
    requires |votes| > 0 && AllStakesNonNegative(votes)
    ensures forall r :: r in ResolveGame(mode, votes).value.results ==>
              (r.win ==> r.change >= r.vote.money >= 0) &&
              (!r.win ==> r.change == -r.vote.money)
  {
    ResolvedResults(mode, votes);
    var (winIdx, loseIdx) := SettledSides(Decide(mode, Totals(votes)));
    PayoutSigns(votes, winIdx, loseIdx);
  }

  /** The payout loops credit each winning vote at least its stake and debit
      each losing vote exactly its stake. */
  lemma PayoutSigns(votes: seq<seq<Vote>>, winIdx: seq<nat>, loseIdx: seq<nat>)
    requires IndicesBelow(winIdx, |votes|) && IndicesBelow(loseIdx, |votes|)
    requires AllStakesNonNegative(votes)
    ensures forall r :: r in Payouts(votes, winIdx, loseIdx) ==>
              (r.win ==> r.change >= r.vote.money >= 0) &&
              (!r.win ==> r.change == -r.vote.money)
  {
    var totals := Totals(votes);
    TotalsNonNegative(votes);
    SumAtNonNegative(totals, winIdx);
    SumAtNonNegative(totals, loseIdx);
    var g := Gather(votes, winIdx);
    GatherNonNegative(votes, winIdx);
    var results := Payouts(votes, winIdx, loseIdx);
    forall r | r in results
      ensures r.win ==> r.change >= r.vote.money >= 0
      ensures !r.win ==> r.change == -r.vote.money
    {
      var k :| 0 <= k < |results| && results[k] == r;
      if k < |g| {
        assert Stakes(g)[k] == g[k].money;
      }
    }
  }

  lemma TotalsNonNegative(votes: seq<seq<Vote>>)
    requires AllStakesNonNegative(votes)
    ensures forall i :: 0 <= i < |votes| ==> Totals(votes)[i] >= 0
  {
    forall i | 0 <= i < |votes|
      ensures Totals(votes)[i] >= 0
    {
      GatherNonNegative(votes, [i]);
      assert Gather(votes, [i]) == votes[i];
      SumNonNegative(Stakes(votes[i]));
    }
  }

  lemma {:induction false} SumOfZeroes(xs: seq<int>)
    requires forall k :: 0 <= k < |xs| ==> xs[k] == 0
    ensures Sum(xs) == 0
  {
    SumConstant(xs, 0);
  }

  /** The two pools of a partition together hold every option's total. */
  lemma PoolsAddUp(totals: seq<int>, s: Split)
    requires Partitions(s, |totals|)
    ensures IndicesBelow(s.winners, |totals|) && IndicesBelow(s.losers, |totals|)
    ensures SumAt(totals, s.winners) + SumAt(totals, s.losers) == Sum(totals)
  {
    var n := |totals|;
    PartitionBounded(s, n);
    SumAtConcat(totals, s.winners, s.losers);
    RangeBelow(n);
    SumAtPermutation(totals, s.winners + s.losers, Range(n));
    SumAtRange(totals, n);
    assert totals[..n] == totals;
  }

  /** A sum of non-negative values that is positive has a positive term. */
  lemma {:induction false} PositiveTerm(xs: seq<int>) returns (j: nat)
    requires AllNonNegative(xs) && Sum(xs) > 0
    ensures j < |xs| && xs[j] > 0
  {
    if xs[|xs| - 1] > 0 {
      j := |xs| - 1;
    } else {
      j := PositiveTerm(xs[..|xs| - 1]);
    }
  }

  /** When some total is positive and none negative, some option wins, and the
      first winner's total is positive. */
  lemma FirstWinnerPositive(mode: GameMode, totals: seq<int>, j: nat)
    requires AllNonNegative(totals) && j < |totals| && totals[j] > 0
    ensures var s := Decide(mode, totals);
            |s.winners| > 0 && s.winners[0] < |totals| && totals[s.winners[0]] > 0
  {
    if mode == Majority {
      MajorityFirstWinnerPositive(totals, j);
    } else {
      MinorityFirstWinnerPositive(totals, j);
    }
  }

  lemma MajorityFirstWinnerPositive(totals: seq<int>, j: nat)
    requires j < |totals| && totals[j] > 0
    ensures var w := ResolveMajority(totals).winners;
            |w| > 0 && w[0] < |totals| && totals[w[0]] > 0
  {
    var w := ResolveMajority(totals).winners;
    MajorityWinners(totals);
    assert w[0] in w;
    assert totals[j] <= totals[w[0]];
  }

  lemma MinorityFirstWinnerPositive(totals: seq<int>, j: nat)
    requires AllNonNegative(totals) && j < |totals| && totals[j] > 0
    ensures var w := ResolveMinority(totals).winners;
            |w| > 0 && w[0] < |totals| && totals[w[0]] > 0
  {
    var w := ResolveMinority(totals).winners;
    MinorityWinners(totals);
    var m := SmallestNonZero(totals, |totals|);
    assert m.Some?;
    var k :| 0 <= k < |totals| && totals[k] == m.value;
    assert k in w;
    assert w[0] in w;
  }

  /** With money in the pot, some option wins and the winning pool is positive. */
  lemma WinningPoolPositive(mode: GameMode, votes: seq<seq<Vote>>)
    requires |votes| > 0 && AllStakesNonNegative(votes) && Pot(votes) > 0
    ensures var s := Decide(mode, Totals(votes));
            |s.winners| > 0 && IndicesBelow(s.winners, |votes|) && SumAt(Totals(votes), s.winners) > 0
  {
    var totals := Totals(votes);
    var s := Decide(mode, totals);
    PartitionBounded(s, |votes|);
    TotalsNonNegative(votes);
    var j := PositiveTerm(totals);
    FirstWinnerPositive(mode, totals, j);
    SumAtNonNegative(totals, s.winners);
  }

  /** The total credited to the winners and the number of won results. */
  lemma PayoutSums(votes: seq<seq<Vote>>, winIdx: seq<nat>, loseIdx: seq<nat>)
    requires IndicesBelow(winIdx, |votes|) && IndicesBelow(loseIdx, |votes|)
    ensures var g := Gather(votes, winIdx);
            var rs := Payouts(votes, winIdx, loseIdx);
            var winPool := SumAt(Totals(votes), winIdx);
            var losePool := SumAt(Totals(votes), loseIdx);
            Sum(Credits(rs)) == Sum(Stakes(g)) + Sum(Shares(Stakes(g), winPool, losePool)) &&
            Sum(WinMarks(rs)) == |g|
  {
    var g := Gather(votes, winIdx);
    var h := Gather(votes, loseIdx);
    var winPool := SumAt(Totals(votes), winIdx);
    var losePool := SumAt(Totals(votes), loseIdx);
    var wr := WinnerResults(g, winPool, losePool);
    var lr := LoserResults(h);
    var rs := wr + lr;
    assert Credits(rs) == Credits(wr) + Credits(lr);
    assert WinMarks(rs) == WinMarks(wr) + WinMarks(lr);
    SumConcat(Credits(wr), Credits(lr));
    SumConcat(WinMarks(wr), WinMarks(lr));
    SumOfZeroes(Credits(lr));
    SumOfZeroes(WinMarks(lr));
    SumConstant(WinMarks(wr), 1);
    SumPointwise(Stakes(g), Shares(Stakes(g), winPool, losePool), Credits(wr));
  }

  /** With money in the pot, the winners are credited no more than the pot, and
      what rounding leaves undistributed is less than one coin per won vote. */
  lemma PayoutWithinPot(mode: GameMode, votes: seq<seq<Vote>>)
    requires |votes| > 0 && AllStakesNonNegative(votes) && Pot(votes) > 0
    ensures var rs := ResolveGame(mode, votes).value.results;
            Pot(votes) - Sum(WinMarks(rs)) < Sum(Credits(rs)) <= Pot(votes)
  {
    var totals := Totals(votes);
    var s := Decide(mode, totals);
    WinningPoolPositive(mode, votes);
    PoolsAddUp(totals, s);
    ResolvedResults(mode, votes);
    TotalsNonNegative(votes);
    var winPool := SumAt(totals, s.winners);
    var losePool := SumAt(totals, s.losers);
    SumAtNonNegative(totals, s.losers);
    var g := Gather(votes, s.winners);
    PayoutSums(votes, s.winners, s.losers);
    GatherStakes(votes, s.winners);
    GatherNonNegative(votes, s.winners);
    BonusesWithinLosingPool(Stakes(g), losePool);
  }

  // ---------------------------------------------------------------- vote results against the stored flags

  /** The indices of the options whose stored flag is `won`, ascending. */
  function Flagged(options: seq<OptionResult>, won: bool): (r: seq<nat>)
    ensures forall k :: 0 <= k < |r| ==> r[k] < |options| && options[r[k]].winner == won
  {
    if |options| == 0 then []
    else
      Flagged(options[..|options| - 1], won)
      + (if options[|options| - 1].winner == won then [|options| - 1] else [])
  }

  lemma {:induction false} FlaggedCounts(options: seq<OptionResult>, won: bool)
    ensures forall i :: 0 <= i < |options| ==>
              multiset(Flagged(options, won))[i] == (if options[i].winner == won then 1 else 0)
  {
    if |options| > 0 {
      var n := |options| - 1;
      var prev := Flagged(options[..n], won);
      FlaggedCounts(options[..n], won);
      assert n !in prev;
      forall i | 0 <= i < |options|
        ensures multiset(Flagged(options, won))[i] == (if options[i].winner == won then 1 else 0)
      {
        if i < n {
          assert options[..n][i] == options[i];
        }
      }
    }
  }

  /** Each index below n sits once on exactly one side of a partition; no
      other index appears. */
  lemma PartitionCounts(s: Split, n: nat, i: nat)
    requires Partitions(s, n)
    ensures i < n ==> multiset(s.winners)[i] == (if i in s.winners then 1 else 0)
    ensures i < n ==> multiset(s.losers)[i] == (if i in s.winners then 0 else 1)
    ensures i >= n ==> multiset(s.winners)[i] == 0 && multiset(s.losers)[i] == 0
  {
    RangeCounts(n);
    assert multiset(s.winners + s.losers) == multiset(s.winners) + multiset(s.losers);
    if i < n {
      assert multiset(Range(n))[i] == 1;
    } else {
      assert i !in multiset(Range(n));
    }
  }

  /** One index's count on each side of a partition is its count among the
      flagged and among the unflagged options. */
  lemma SideCountsAt(options: seq<OptionResult>, s: Split, i: nat)
    requires Partitions(s, |options|)
    requires forall i :: 0 <= i < |options| ==> (options[i].winner <==> i in s.winners)
    ensures multiset(s.winners)[i] == multiset(Flagged(options, true))[i]
    ensures multiset(s.losers)[i] == multiset(Flagged(options, false))[i]
  {
    PartitionCounts(s, |options|, i);
    FlaggedCounts(options, true);
    FlaggedCounts(options, false);
    if i >= |options| {
      assert i !in Flagged(options, true);
      assert i !in Flagged(options, false);
    }
  }

  /** The two sides of a partition are, up to order, the options flagged as
      winners and the options flagged as losers. */
  lemma SidesAreFlags(options: seq<OptionResult>, s: Split)
    requires Partitions(s, |options|)
    requires forall i :: 0 <= i < |options| ==> (options[i].winner <==> i in s.winners)
    ensures multiset(s.winners) == multiset(Flagged(options, true))
    ensures multiset(s.losers) == multiset(Flagged(options, false))
  {
    var w, fw := multiset(s.winners), multiset(Flagged(options, true));
    var l, fl := multiset(s.losers), multiset(Flagged(options, false));
    forall i: nat
      ensures w[i] == fw[i] && l[i] == fl[i]
    {
      SideCountsAt(options, s, i);
    }
    SameCounts(w, fw);
    SameCounts(l, fl);
  }

  /** Multisets of indices with the same count of every index are equal. */
  lemma SameCounts(a: multiset<nat>, b: multiset<nat>)
    requires forall i: nat :: a[i] == b[i]
    ensures a == b
  {
  }

  /** How the settlement loops record one vote: on a winning option, its stake
      plus its share of the losing pool; on a losing option, minus its stake. */
  function SettledAs(v: Vote, won: bool, winPool: int, losePool: int): VoteResult
  {
    if won then VoteResult(v, true, Credit(v.money, winPool, losePool)) else VoteResult(v, false, -v.money)
  }

  /** Every result is the settlement of one vote of some option by that
      option's flag. */
  predicate ResultsAreSettlements(votes: seq<seq<Vote>>, options: seq<OptionResult>,
                                  results: seq<VoteResult>, winPool: int, losePool: int)
    requires |options| == |votes|
  {
    forall r :: r in results ==> IsSettlement(votes, options, r, winPool, losePool)
  }

  /** The result settles one vote of some option by that option's flag. */
  predicate IsSettlement(votes: seq<seq<Vote>>, options: seq<OptionResult>,
                         r: VoteResult, winPool: int, losePool: int)
    requires |options| == |votes|
  {
    exists i, j :: 0 <= i < |votes| && 0 <= j < |votes[i]| &&
      r == SettledAs(votes[i][j], options[i].winner, winPool, losePool)
  }

  /** Every vote of every option has its settlement among the results. */
  predicate VotesAreSettled(votes: seq<seq<Vote>>, options: seq<OptionResult>,
                            results: seq<VoteResult>, winPool: int, losePool: int)
    requires |options| == |votes|
  {
    forall i, j :: 0 <= i < |votes| && 0 <= j < |votes[i]| ==>
      SettledAs(votes[i][j], options[i].winner, winPool, losePool) in results
  }

  /** The vote results follow the stored option flags, the winning pool being
      the sum of the flagged options' totals and the losing pool the sum of the
      others'. */
  predicate SettledByFlags(votes: seq<seq<Vote>>, options: seq<OptionResult>, results: seq<VoteResult>)
    requires |options| == |votes|
  {
    var winPool := SumAt(Totals(votes), Flagged(options, true));
    var losePool := SumAt(Totals(votes), Flagged(options, false));
    ResultsAreSettlements(votes, options, results, winPool, losePool) &&
    VotesAreSettled(votes, options, results, winPool, losePool)
  }

  /** The options listed in idxs all carry the flag `won`. */
  predicate AllFlagged(options: seq<OptionResult>, idxs: seq<nat>, won: bool)
  {
    forall m :: 0 <= m < |idxs| ==> idxs[m] < |options| && options[idxs[m]].winner == won
  }

  lemma WonResultOrigin(votes: seq<seq<Vote>>, options: seq<OptionResult>, winIdx: seq<nat>,
                        winPool: int, losePool: int, k: nat) returns (i: nat, j: nat)
    requires IndicesBelow(winIdx, |votes|) && |options| == |votes| && AllFlagged(options, winIdx, true)
    requires k < |Gather(votes, winIdx)|
    ensures i < |votes| && j < |votes[i]|
    ensures WinnerResults(Gather(votes, winIdx), winPool, losePool)[k]
         == SettledAs(votes[i][j], options[i].winner, winPool, losePool)
  {
    var m;
    m, j := GatherOrigin(votes, winIdx, k);
    i := winIdx[m];
  }

  lemma LostResultOrigin(votes: seq<seq<Vote>>, options: seq<OptionResult>, loseIdx: seq<nat>,
                         winPool: int, losePool: int, k: nat) returns (i: nat, j: nat)
    requires IndicesBelow(loseIdx, |votes|) && |options| == |votes| && AllFlagged(options, loseIdx, false)
    requires k < |Gather(votes, loseIdx)|
    ensures i < |votes| && j < |votes[i]|
    ensures LoserResults(Gather(votes, loseIdx))[k] == SettledAs(votes[i][j], options[i].winner, winPool, losePool)
  {
    var m;
    m, j := GatherOrigin(votes, loseIdx, k);
    i := loseIdx[m];
  }

  lemma WonAreSettlements(votes: seq<seq<Vote>>, options: seq<OptionResult>,
                          winIdx: seq<nat>, winPool: int, losePool: int)
    requires IndicesBelow(winIdx, |votes|) && |options| == |votes| && AllFlagged(options, winIdx, true)
    ensures ResultsAreSettlements(votes, options, WinnerResults(Gather(votes, winIdx), winPool, losePool),
                                  winPool, losePool)
  {
    var wr := WinnerResults(Gather(votes, winIdx), winPool, losePool);
    forall r | r in wr
      ensures IsSettlement(votes, options, r, winPool, losePool)
    {
      var k :| 0 <= k < |wr| && wr[k] == r;
      var i, j := WonResultOrigin(votes, options, winIdx, winPool, losePool, k);
    }
  }

  lemma LostAreSettlements(votes: seq<seq<Vote>>, options: seq<OptionResult>,
                           loseIdx: seq<nat>, winPool: int, losePool: int)
    requires IndicesBelow(loseIdx, |votes|) && |options| == |votes| && AllFlagged(options, loseIdx, false)
    ensures ResultsAreSettlements(votes, options, LoserResults(Gather(votes, loseIdx)), winPool, losePool)
  {
    var lr := LoserResults(Gather(votes, loseIdx));
    forall r | r in lr
      ensures IsSettlement(votes, options, r, winPool, losePool)
    {
      var k :| 0 <= k < |lr| && lr[k] == r;
      var i, j := LostResultOrigin(votes, options, loseIdx, winPool, losePool, k);
    }
  }

  /** Settling the votes of options flagged as winners, then of options
      flagged as losers, yields only settlements by the flags. */
  lemma SidesAreSettlements(votes: seq<seq<Vote>>, options: seq<OptionResult>,
                            winIdx: seq<nat>, loseIdx: seq<nat>, winPool: int, losePool: int)
    requires IndicesBelow(winIdx, |votes|) && IndicesBelow(loseIdx, |votes|) && |options| == |votes|
    requires AllFlagged(options, winIdx, true) && AllFlagged(options, loseIdx, false)
    ensures ResultsAreSettlements(votes, options,
              WinnerResults(Gather(votes, winIdx), winPool, losePool) + LoserResults(Gather(votes, loseIdx)),
              winPool, losePool)
  {
    var wr := WinnerResults(Gather(votes, winIdx), winPool, losePool);
    var lr := LoserResults(Gather(votes, loseIdx));
    WonAreSettlements(votes, options, winIdx, winPool, losePool);
    LostAreSettlements(votes, options, loseIdx, winPool, losePool);
    assert forall r :: r in wr + lr ==> r in wr || r in lr;
  }

  lemma WonVotesSettled(votes: seq<seq<Vote>>, options: seq<OptionResult>,
                        winIdx: seq<nat>, winPool: int, losePool: int, i: nat, j: nat)
    requires IndicesBelow(winIdx, |votes|) && |options| == |votes|
    requires i < |votes| && j < |votes[i]| && options[i].winner && i in winIdx
    ensures SettledAs(votes[i][j], options[i].winner, winPool, losePool)
            in WinnerResults(Gather(votes, winIdx), winPool, losePool)
  {
    var wr := WinnerResults(Gather(votes, winIdx), winPool, losePool);
    var m :| 0 <= m < |winIdx| && winIdx[m] == i;
    var k := GatherHas(votes, winIdx, m, j);
    assert wr[k] == SettledAs(votes[i][j], options[i].winner, winPool, losePool);
  }

  lemma LostVotesSettled(votes: seq<seq<Vote>>, options: seq<OptionResult>,
                         loseIdx: seq<nat>, winPool: int, losePool: int, i: nat, j: nat)
    requires IndicesBelow(loseIdx, |votes|) && |options| == |votes|
    requires i < |votes| && j < |votes[i]| && !options[i].winner && i in loseIdx
    ensures SettledAs(votes[i][j], options[i].winner, winPool, losePool) in LoserResults(Gather(votes, loseIdx))
  {
    var lr := LoserResults(Gather(votes, loseIdx));
    var m :| 0 <= m < |loseIdx| && loseIdx[m] == i;
    var k := GatherHas(votes, loseIdx, m, j);
    assert lr[k] == SettledAs(votes[i][j], options[i].winner, winPool, losePool);
  }

  /** When every option is on one of the two sides, every vote has its
      settlement by its option's flag among the results. */
  lemma SidesSettleVotes(votes: seq<seq<Vote>>, options: seq<OptionResult>,
                         winIdx: seq<nat>, loseIdx: seq<nat>, winPool: int, losePool: int)
    requires IndicesBelow(winIdx, |votes|) && IndicesBelow(loseIdx, |votes|) && |options| == |votes|
    requires forall i :: 0 <= i < |votes| && options[i].winner ==> i in winIdx
    requires forall i :: 0 <= i < |votes| && !options[i].winner ==> i in loseIdx
    ensures VotesAreSettled(votes, options,
              WinnerResults(Gather(votes, winIdx), winPool, losePool) + LoserResults(Gather(votes, loseIdx)),
              winPool, losePool)
  {
    var wr := WinnerResults(Gather(votes, winIdx), winPool, losePool);
    var lr := LoserResults(Gather(votes, loseIdx));
    forall i, j | 0 <= i < |votes| && 0 <= j < |votes[i]|
      ensures SettledAs(votes[i][j], options[i].winner, winPool, losePool) in wr + lr
    {
      if options[i].winner {
        WonVotesSettled(votes, options, winIdx, winPool, losePool, i, j);
      } else {
        LostVotesSettled(votes, options, loseIdx, winPool, losePool, i, j);
      }
    }
  }

  /** Paying out the two sides of a partition settles the votes by the flags
      the partition stores. */
  lemma PayoutsFollowFlags(votes: seq<seq<Vote>>, s: Split)
    requires Partitions(s, |votes|)
    requires IndicesBelow(s.winners, |votes|) && IndicesBelow(s.losers, |votes|)
    ensures SettledByFlags(votes, OptionResults(votes, Totals(votes), s), Payouts(votes, s.winners, s.losers))
  {
    var totals := Totals(votes);
    var options := OptionResults(votes, totals, s);
    var winPool, losePool := SumAt(totals, s.winners), SumAt(totals, s.losers);
    SidesAreFlags(options, s);
    SumAtPermutation(totals, s.winners, Flagged(options, true));
    SumAtPermutation(totals, s.losers, Flagged(options, false));
    assert AllFlagged(options, s.winners, true) by {
      forall m | 0 <= m < |s.winners|
        ensures s.winners[m] < |options| && options[s.winners[m]].winner
      {
        assert s.winners[m] in s.winners;
      }
    }
    assert AllFlagged(options, s.losers, false) by {
      forall m | 0 <= m < |s.losers|
        ensures s.losers[m] < |options| && !options[s.losers[m]].winner
      {
        assert s.losers[m] in s.losers;
      }
    }
    SidesAreSettlements(votes, options, s.winners, s.losers, winPool, losePool);
    SidesSettleVotes(votes, options, s.winners, s.losers, winPool, losePool);
  }

  /** A majority game with options, and a minority game with a non-zero total,
      have a winner. */
  lemma DecideHasWinner(mode: GameMode, totals: seq<int>)
    requires |totals| > 0
    requires mode == Majority || exists i :: 0 <= i < |totals| && totals[i] != 0
    ensures |Decide(mode, totals).winners| > 0
  {
    if mode == Majority {
      MajorityWinners(totals);
    } else {
      var m := SmallestNonZero(totals, |totals|);
      assert m.Some?;
      var j :| 0 <= j < |totals| && totals[j] == m.value;
      MinorityWinners(totals);
      assert j in ResolveMinority(totals).winners;
    }
  }

  /** In a game with a winner, some option is flagged as a winner, and the vote
      results follow the flags: a vote on a flagged option records its stake plus
      its share of the losing pool, a vote on an unflagged option records minus
      its stake, and every vote is settled. */
  lemma ResultsFollowFlags(mode: GameMode, votes: seq<seq<Vote>>)
    requires |votes| > 0
    requires mode == Majority || exists i :: 0 <= i < |votes| && Totals(votes)[i] != 0
    ensures exists i :: 0 <= i < |votes| && ResolveGame(mode, votes).value.options[i].winner
    ensures SettledByFlags(votes, ResolveGame(mode, votes).value.options, ResolveGame(mode, votes).value.results)
  {
    var s := Decide(mode, Totals(votes));
    DecideHasWinner(mode, Totals(votes));
    ResolvedResults(mode, votes);
    assert s.winners[0] in s.winners;
    PayoutsFollowFlags(votes, s);
  }

  /** Outside the minority game without a non-zero total, the source's
      resolution and the corrected one agree. */
  lemma AsWrittenAgrees(mode: GameMode, votes: seq<seq<Vote>>)
    requires |votes| > 0
    requires mode == Majority || exists i :: 0 <= i < |votes| && Totals(votes)[i] != 0
    ensures ResolveGameAsWritten(mode, votes) == ResolveGame(mode, votes)
  {
    DecideHasWinner(mode, Totals(votes));
  }

  // ---------------------------------------------------------------- the all-zero minority game

  /** The results of the source's resolution are the payouts of its settled sides. */
  lemma ResolvedResultsAsWritten(mode: GameMode, votes: seq<seq<Vote>>)
    requires |votes| > 0
    requires mode == Minority || |Decide(mode, Totals(votes)).winners| > 0
    ensures var s := Decide(mode, Totals(votes));
            IndicesBelow(SettledSidesAsWritten(s).0, |votes|) && IndicesBelow(SettledSidesAsWritten(s).1, |votes|) &&
            ResolveGameAsWritten(mode, votes).Ok? &&
            ResolveGameAsWritten(mode, votes).value.results
              == Payouts(votes, SettledSidesAsWritten(s).0, SettledSidesAsWritten(s).1)
  {
    PartitionBounded(Decide(mode, Totals(votes)), |votes|);
  }

  /** In a minority game where every total is zero, the source settles every
      option on both sides; the corrected resolution settles every option as
      won and none as lost. */
  lemma AllZeroMinoritySides(votes: seq<seq<Vote>>)
    requires |votes| > 0
    requires forall i :: 0 <= i < |votes| ==> Totals(votes)[i] == 0
    ensures IndicesBelow(Range(|votes|), |votes|)
    ensures ResolveGameAsWritten(Minority, votes).Ok?
    ensures ResolveGameAsWritten(Minority, votes).value.results
         == Payouts(votes, Range(|votes|), Range(|votes|))
    ensures ResolveGame(Minority, votes).value.results == Payouts(votes, Range(|votes|), [])
  {
    var s := Decide(Minority, Totals(votes));
    MinorityZeroesLose(Totals(votes));
    assert s.winners == [] && s.losers == Range(|votes|);
    RangeBelow(|votes|);
    ResolvedResults(Minority, votes);
    ResolvedResultsAsWritten(Minority, votes);
  }

  /** The corrected resolution of a minority game in which every total is zero:
      no option is flagged as a winner, yet every vote is settled as won and
      credited exactly its stake, both pools being empty. */
  lemma AllZeroMinoritySettlement(votes: seq<seq<Vote>>)
    requires |votes| > 0
    requires forall i :: 0 <= i < |votes| ==> Totals(votes)[i] == 0
    ensures forall i :: 0 <= i < |votes| ==> !ResolveGame(Minority, votes).value.options[i].winner
    ensures forall r :: r in ResolveGame(Minority, votes).value.results ==> r.win && r.change == r.vote.money
  {
    AllZeroMinorityFlags(votes);
    AllZeroMinorityCredits(votes);
  }

  lemma AllZeroMinorityFlags(votes: seq<seq<Vote>>)
    requires |votes| > 0
    requires forall i :: 0 <= i < |votes| ==> Totals(votes)[i] == 0
    ensures forall i :: 0 <= i < |votes| ==> !ResolveGame(Minority, votes).value.options[i].winner
  {
    MinorityZeroesLose(Totals(votes));
    ResolvedResults(Minority, votes);
  }

  lemma AllZeroMinorityCredits(votes: seq<seq<Vote>>)
    requires |votes| > 0
    requires forall i :: 0 <= i < |votes| ==> Totals(votes)[i] == 0
    ensures forall r :: r in ResolveGame(Minority, votes).value.results ==> r.win && r.change == r.vote.money
  {
    var n := |votes|;
    var totals := Totals(votes);
    AllZeroMinoritySides(votes);
    var winPool := AllZeroPool(totals);
    var g := Gather(votes, Range(n));
    var results := Payouts(votes, Range(n), []);
    PayoutsParts(votes, Range(n), []);
    assert results == WinnerResults(g, winPool, 0) + LoserResults([]);
    forall r | r in results
      ensures r.win && r.change == r.vote.money
    {
      var k :| 0 <= k < |results| && results[k] == r;
      assert r == VoteResult(g[k], true, Credit(g[k].money, 0, 0));
    }
  }

  /** Summed over every option, zero totals make an empty pool. */
  lemma AllZeroPool(totals: seq<int>) returns (pool: int)
    requires forall i :: 0 <= i < |totals| ==> totals[i] == 0
    ensures IndicesBelow(Range(|totals|), |totals|)
    ensures pool == SumAt(totals, Range(|totals|)) == 0
  {
    SumAtRange(totals, |totals|);
    assert totals[..|totals|] == totals;
    SumOfZeroes(totals);
    pool := SumAt(totals, Range(|totals|));
  }

  /** As the source writes it, a minority game in which every total is zero
      settles every vote twice: once as won and once as lost. */
  lemma AsWrittenSettlesTwice(votes: seq<seq<Vote>>)
    requires |votes| > 0
    requires forall i :: 0 <= i < |votes| ==> Totals(votes)[i] == 0
    ensures ResolveGameAsWritten(Minority, votes).Ok?
    ensures multiset(SettledVotes(ResolveGameAsWritten(Minority, votes).value.results))
         == multiset(AllVotes(votes)) + multiset(AllVotes(votes))
  {
    var n := |votes|;
    AllZeroMinoritySides(votes);
    SettledVotesOfPayouts(votes, Range(n), Range(n));
    GatherConcat(votes, Range(n), Range(n));
  }

  /** Totals, gathers and pools of the game [[v], []] when v stakes nothing. */
  lemma ZeroStakeGathers(v: Vote)
    requires v.money == 0
    ensures Totals([[v], []]) == [0, 0]
    ensures Gather([[v], []], [0, 1]) == [v] && Gather([[v], []], []) == []
    ensures SumAt([0, 0], [0, 1]) == 0 && SumAt([0, 0], []) == 0
  {
    var votes := [[v], []];
    assert Stakes([v]) == [0] && Stakes([]) == [];
    assert Sum([0]) == Sum([]) + 0;
    assert [0, 1][1..] == [1] && [1][1..] == [];
    assert Gather(votes, [1]) == [] + Gather(votes, []);
    assert Gather(votes, [0, 1]) == [v] + Gather(votes, [1]);
    assert SumAt([0, 0], [1]) == 0 + SumAt([0, 0], []);
  }

  /** The results for the game [[v], []] when v stakes nothing. */
  lemma ZeroStakeGame(v: Vote)
    requires v.money == 0
    ensures Totals([[v], []]) == [0, 0]
    ensures Payouts([[v], []], [0, 1], [0, 1]) == [VoteResult(v, true, 0), VoteResult(v, false, 0)]
    ensures Payouts([[v], []], [0, 1], []) == [VoteResult(v, true, 0)]
  {
    var votes := [[v], []];
    ZeroStakeGathers(v);
    PayoutsParts(votes, [0, 1], [0, 1]);
    PayoutsParts(votes, [0, 1], []);
    ZeroStakeSettled(v);
  }

  /** A lone zero stake settled with empty pools: won with nothing credited,
      or lost with nothing taken. */
  lemma ZeroStakeSettled(v: Vote)
    requires v.money == 0
    ensures WinnerResults([v], 0, 0) == [VoteResult(v, true, 0)]
    ensures LoserResults([v]) == [VoteResult(v, false, 0)]
    ensures LoserResults([]) == []
  {
    assert WinnerResults([v], 0, 0)[0] == VoteResult(v, true, 0);
    assert LoserResults([v])[0] == VoteResult(v, false, 0);
  }

  /** One option holding a single zero stake, one option without votes: the
      source settles the one vote as won and then as lost, the corrected
      resolution settles it once, as won. */
  lemma DoubleSettlementExample(v: Vote)
    requires v.money == 0
    ensures ResolveGameAsWritten(Minority, [[v], []]).Ok?
    ensures ResolveGameAsWritten(Minority, [[v], []]).value.results
         == [VoteResult(v, true, 0), VoteResult(v, false, 0)]
    ensures ResolveGame(Minority, [[v], []]).value.results == [VoteResult(v, true, 0)]
  {
    var votes := [[v], []];
    RangeTwo();
    ZeroStakeGame(v);
    assert forall i :: 0 <= i < |votes| ==> Totals(votes)[i] == 0;
    AllZeroMinoritySides(votes);
  }

  lemma RangeTwo()
    ensures Range(2) == [0, 1]
  {
    assert Range(2) == Range(1) + [1];
  }
}
