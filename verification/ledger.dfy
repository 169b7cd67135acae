/**
 Applying the settled votes of a game to the user table (game_logic.go,
 ResolveGame, the two settlement loops). For a won vote the source credits the
 recorded change, grants the win experience and counts a won game; for a lost
 vote it counts a lost game. Each update's error is ignored, so a failed update
 leaves the table as it was and the next update still runs.
 */
module Ledger {
  import opened Wrappers
  import opened Users
  import opened Votes
  import opened Settlement

  /** The updates for one settled vote, in the source's order. */
  function ApplyResult(store: Store, r: VoteResult): (s: Store)
    ensures s.Keys == store.Keys
    ensures forall id :: id in store && id != r.vote.userId ==> s[id] == store[id]
  {
    var id := r.vote.userId;
    if r.win then
      var s1 := OrUnchanged(AllocateMoney(store, id, r.change), store);
      var s2 := OrUnchanged(AllocateWinExp(s1, id), s1);
      OrUnchanged(AllocateWinOrLoss(s2, id, true), s2)
    else
      OrUnchanged(AllocateWinOrLoss(store, id, false), store)
  }

  /** The updates for every settled vote, first to last. */
  function ApplyResults(store: Store, rs: seq<VoteResult>): (s: Store)
    ensures s.Keys == store.Keys
    ensures forall id :: id in store && VotesBy(SettledVotes(rs), id) == 0 ==> s[id] == store[id]
  {
    if |rs| == 0 then store
    else
      assert SettledVotes(rs)[..|rs| - 1] == SettledVotes(rs[..|rs| - 1]);
      ApplyResult(ApplyResults(store, rs[..|rs| - 1]), rs[|rs| - 1])
  }

  /** The votes in vs cast by the given user. */
  function VotesBy(vs: seq<Vote>, id: UserId): nat
  {
    if |vs| == 0 then 0
    else VotesBy(vs[..|vs| - 1], id) + (if vs[|vs| - 1].userId == id then 1 else 0)
  }

  /** The results in rs that the given user won. */
  function WonBy(rs: seq<VoteResult>, id: UserId): nat
  {
    if |rs| == 0 then 0
    else WonBy(rs[..|rs| - 1], id) + (if rs[|rs| - 1].vote.userId == id && rs[|rs| - 1].win then 1 else 0)
  }

  /** What the results in rs credit to the given user. */
  function CreditedTo(rs: seq<VoteResult>, id: UserId): int
  {
    if |rs| == 0 then 0
    else CreditedTo(rs[..|rs| - 1], id) + (if rs[|rs| - 1].vote.userId == id && rs[|rs| - 1].win then rs[|rs| - 1].change else 0)
  }

  /** Every won result credits a non-negative amount. */
  predicate CreditsNonNegative(rs: seq<VoteResult>)
  {
    forall k :: 0 <= k < |rs| && rs[k].win ==> rs[k].change >= 0
  }

  /** Resolve the game and apply its results to the user table. */
  function Settle(store: Store, mode: GameMode, votes: seq<seq<Vote>>): (r: Result<Store, ResolveError>)
    ensures r.Ok? <==> ResolveGame(mode, votes).Ok?
    ensures r.Ok? ==> r.value.Keys == store.Keys
  {
    match ResolveGame(mode, votes)
    case Ok(res) => Ok(ApplyResults(store, res.results))
    case Err(e) => Err(e)
  }

  /** Settle with the source's handling of the all-zero minority game. */
  function SettleAsWritten(store: Store, mode: GameMode, votes: seq<seq<Vote>>): (r: Result<Store, ResolveError>)
    ensures r.Ok? <==> ResolveGameAsWritten(mode, votes).Ok?
    ensures r.Ok? ==> r.value.Keys == store.Keys
  {
    match ResolveGameAsWritten(mode, votes)
    case Ok(res) => Ok(ApplyResults(store, res.results))
    case Err(e) => Err(e)
  }

  // ---------------------------------------------------------------- one result

  /** What one settled vote does to one user's game counters and experience;
      these updates go through whether or not the credit was accepted. */
  lemma ApplyResultCounters(store: Store, r: VoteResult, id: UserId)
    requires id in store
    ensures var u := store[id];
            var u' := ApplyResult(store, r)[id];
            var mine := r.vote.userId == id;
            u'.id == u.id &&
            u'.gamesPlayed == u.gamesPlayed + (if mine then 1 else 0) &&
            u'.gamesWon == u.gamesWon + (if mine && r.win then 1 else 0) &&
            u'.experience == u.experience + (if mine && r.win then WIN_EXP else 0)
  {
  }

  /** What one settled vote does to one user's balance, when nobody is in debt
      and the credit is not negative. */
  lemma ApplyResultMoney(store: Store, r: VoteResult, id: UserId)
    requires id in store && AllSolvent(store)
    requires r.win ==> r.change >= 0
    ensures ApplyResult(store, r)[id].moneyTotal
         == store[id].moneyTotal + (if r.vote.userId == id && r.win then r.change else 0)
  {
  }

  lemma ApplyResultKeepsInvariants(store: Store, r: VoteResult)
    requires AllSolvent(store) && AllStatsValid(store)
    ensures AllSolvent(ApplyResult(store, r)) && AllStatsValid(ApplyResult(store, r))
  {
    var id := r.vote.userId;
    if r.win {
      var s1 := OrUnchanged(AllocateMoney(store, id, r.change), store);
      AllocateMoneyKeepsSolvent(store, id, r.change);
      var s2 := OrUnchanged(AllocateWinExp(s1, id), s1);
      WinOrLossKeepsStats(s2, id, true);
    } else {
      WinOrLossKeepsStats(store, id, false);
    }
  }

  lemma ApplyResultKeepsSolvent(store: Store, r: VoteResult)
    requires AllSolvent(store)
    ensures AllSolvent(ApplyResult(store, r))
  {
    if r.win {
      AllocateMoneyKeepsSolvent(store, r.vote.userId, r.change);
    }
  }

  // ---------------------------------------------------------------- many results

  /** Applying results never leaves anyone in debt. */
  lemma {:induction false} ApplyResultsKeepsSolvent(store: Store, rs: seq<VoteResult>)
    requires AllSolvent(store)
    ensures AllSolvent(ApplyResults(store, rs))
  {
    if |rs| > 0 {
      ApplyResultsKeepsSolvent(store, rs[..|rs| - 1]);
      ApplyResultKeepsSolvent(ApplyResults(store, rs[..|rs| - 1]), rs[|rs| - 1]);
    }
  }

  /** Applying results never breaks solvency or the game counters. */
  lemma {:induction false} ApplyResultsKeepsInvariants(store: Store, rs: seq<VoteResult>)
    requires AllSolvent(store) && AllStatsValid(store)
    ensures AllSolvent(ApplyResults(store, rs)) && AllStatsValid(ApplyResults(store, rs))
  {
    if |rs| > 0 {
      ApplyResultsKeepsInvariants(store, rs[..|rs| - 1]);
      ApplyResultKeepsInvariants(ApplyResults(store, rs[..|rs| - 1]), rs[|rs| - 1]);
    }
  }

  /** Each user's counters after the results: one more game per settled vote of
      theirs, and one more win and the win experience per won vote. */
  lemma {:induction false} ApplyResultsCounters(store: Store, rs: seq<VoteResult>, id: UserId)
    requires id in store
    ensures var u := store[id];
            var u' := ApplyResults(store, rs)[id];
            u'.id == u.id &&
            u'.gamesPlayed == u.gamesPlayed + VotesBy(SettledVotes(rs), id) &&
            u'.gamesWon == u.gamesWon + WonBy(rs, id) &&
            u'.experience == u.experience + WIN_EXP * WonBy(rs, id)
  {
    if |rs| > 0 {
      var init := rs[..|rs| - 1];
      ApplyResultsCounters(store, init, id);
      ApplyResultCounters(ApplyResults(store, init), rs[|rs| - 1], id);
      assert SettledVotes(rs)[..|rs| - 1] == SettledVotes(init);
    }
  }

  /** Each user's balance after the results: the sum of their credits, when
      nobody starts in debt and no credit is negative. */
  lemma {:induction false} ApplyResultsMoney(store: Store, rs: seq<VoteResult>, id: UserId)
    requires id in store && AllSolvent(store) && CreditsNonNegative(rs)
    ensures ApplyResults(store, rs)[id].moneyTotal == store[id].moneyTotal + CreditedTo(rs, id)
  {
    if |rs| > 0 {
      var init := rs[..|rs| - 1];
      ApplyResultsMoney(store, init, id);
      ApplyResultsKeepsSolvent(store, init);
      ApplyResultMoney(ApplyResults(store, init), rs[|rs| - 1], id);
    }
  }

  // ---------------------------------------------------------------- whole games

  lemma {:induction false} VotesByConcat(a: seq<Vote>, b: seq<Vote>, id: UserId)
    ensures VotesBy(a + b, id) == VotesBy(a, id) + VotesBy(b, id)
  {
    if |b| == 0 {
      assert a + b == a;
    } else {
      VotesByConcat(a, b[..|b| - 1], id);
      assert (a + b)[..|a + b| - 1] == a + b[..|b| - 1];
    }
  }

  /** Taking b[i] out of b removes one vote of its user, and one element from
      the multiset. */
  lemma VotesByRemove(b: seq<Vote>, i: nat, id: UserId)
    requires i < |b|
    ensures multiset(b[..i] + b[i + 1..]) == multiset(b) - multiset{b[i]}
    ensures VotesBy(b, id) == VotesBy(b[..i] + b[i + 1..], id) + (if b[i].userId == id then 1 else 0)
  {
    var pre, x, post := b[..i], b[i], b[i + 1..];
    assert b == pre + [x] + post;
    assert multiset(b) == multiset(pre) + multiset{x} + multiset(post);
    VotesByConcat(pre + [x], post, id);
    VotesByConcat(pre, [x], id);
    VotesByConcat(pre, post, id);
    assert VotesBy([x], id) == VotesBy([], id) + (if x.userId == id then 1 else 0);
  }

  /** Counting a user's votes does not depend on their order. */
  lemma {:induction false} VotesByPermutation(a: seq<Vote>, b: seq<Vote>, id: UserId)
    requires multiset(a) == multiset(b)
    ensures VotesBy(a, id) == VotesBy(b, id)
  {
    if |a| == 0 {
      assert |b| == |multiset(b)| == 0;
    } else {
      var x := a[|a| - 1];
      var init := a[..|a| - 1];
      assert a == init + [x];
      assert multiset(init) == multiset(a) - multiset{x};
      assert x in multiset(b);
      var i :| 0 <= i < |b| && b[i] == x;
      VotesByRemove(b, i, id);
      VotesByPermutation(init, b[..i] + b[i + 1..], id);
    }
  }

  /** A won vote of a resolved game never credits a negative amount, when no
      stake is negative. */
  lemma GameCreditsNonNegative(mode: GameMode, votes: seq<seq<Vote>>)
    requires |votes| > 0 && AllStakesNonNegative(votes)
    ensures CreditsNonNegative(ResolveGame(mode, votes).value.results)
  {
    var rs := ResolveGame(mode, votes).value.results;
    WinnerGetsStakeBack(mode, votes);
    forall k | 0 <= k < |rs| && rs[k].win
      ensures rs[k].change >= 0
    {
      assert rs[k] in rs;
    }
  }

  /** Settling a game counts one game for every vote a user cast in it. */
  lemma SettleCountsEachVoteOnce(store: Store, mode: GameMode, votes: seq<seq<Vote>>, id: UserId)
    requires |votes| > 0 && id in store
    ensures Settle(store, mode, votes).value[id].gamesPlayed
         == store[id].gamesPlayed + VotesBy(AllVotes(votes), id)
  {
    var rs := ResolveGame(mode, votes).value.results;
    ApplyResultsCounters(store, rs, id);
    EachVoteSettledOnce(mode, votes);
    VotesByPermutation(SettledVotes(rs), AllVotes(votes), id);
  }

  /** Settling a game with non-negative stakes changes a solvent user's balance
      by exactly what their won votes credit. */
  lemma SettleCreditsWinners(store: Store, mode: GameMode, votes: seq<seq<Vote>>, id: UserId)
    requires |votes| > 0 && id in store && AllSolvent(store) && AllStatsValid(store)
    requires AllStakesNonNegative(votes)
    ensures Settle(store, mode, votes).value[id].moneyTotal
         == store[id].moneyTotal + CreditedTo(ResolveGame(mode, votes).value.results, id)
    ensures AllSolvent(Settle(store, mode, votes).value) && AllStatsValid(Settle(store, mode, votes).value)
  {
    var rs := ResolveGame(mode, votes).value.results;
    GameCreditsNonNegative(mode, votes);
    ApplyResultsMoney(store, rs, id);
    ApplyResultsKeepsInvariants(store, rs);
  }

  /** As the source writes it, a minority game in which every total is zero
      counts two games for every vote. */
  lemma AsWrittenCountsTwice(store: Store, votes: seq<seq<Vote>>, id: UserId)
    requires |votes| > 0 && id in store
    requires forall i :: 0 <= i < |votes| ==> Totals(votes)[i] == 0
    ensures SettleAsWritten(store, Minority, votes).value[id].gamesPlayed
         == store[id].gamesPlayed + 2 * VotesBy(AllVotes(votes), id)
  {
    var rs := ResolveGameAsWritten(Minority, votes).value.results;
    AsWrittenSettlesTwice(votes);
    ApplyResultsCounters(store, rs, id);
    var all := AllVotes(votes);
    VotesByPermutation(SettledVotes(rs), all + all, id);
    VotesByConcat(all, all, id);
  }

  lemma VotesOfOneUser(v: Vote)
    ensures VotesBy(SettledVotes([VoteResult(v, true, 0)]), v.userId) == 1
    ensures VotesBy(SettledVotes([VoteResult(v, true, 0), VoteResult(v, false, 0)]), v.userId) == 2
  {
    var once := SettledVotes([VoteResult(v, true, 0)]);
    var twice := SettledVotes([VoteResult(v, true, 0), VoteResult(v, false, 0)]);
    assert once == [v];
    assert twice == [v, v];
    assert [v][..0] == [];
    assert [v, v][..1] == [v];
  }

  /** A user with one zero-stake vote in a minority game whose totals are all
      zero: the source records two games played, the corrected settlement one. */
  lemma GamesPlayedExample()
    ensures var store := map["a" := User("a", 100, 0, 0, 0)];
            var votes := [[Vote("a", 0)], []];
            SettleAsWritten(store, Minority, votes).value["a"].gamesPlayed == 2 &&
            Settle(store, Minority, votes).value["a"].gamesPlayed == 1
  {
    var store := map["a" := User("a", 100, 0, 0, 0)];
    var v := Vote("a", 0);
    var votes := [[v], []];
    var twice := [VoteResult(v, true, 0), VoteResult(v, false, 0)];
    var once := [VoteResult(v, true, 0)];
    DoubleSettlementExample(v);
    assert SettleAsWritten(store, Minority, votes) == Ok(ApplyResults(store, twice));
    assert Settle(store, Minority, votes) == Ok(ApplyResults(store, once));
    ApplyResultsCounters(store, twice, "a");
    ApplyResultsCounters(store, once, "a");
    VotesOfOneUser(v);
  }
}
