/**
 Winner determination for the two game modes (game_logic.go, resolveMajority and
 resolveMinority). Both take the per-option stake totals and split the option
 indices into winners and losers; the folds below follow the source loops step
 by step, including the order in which indices are appended.
 */
module Outcomes {
  import opened Wrappers

  /** The option indices a resolver puts on each side. */
  datatype Split = Split(winners: seq<nat>, losers: seq<nat>)

  /** The indices 0, 1, ..., n - 1 in ascending order. */
  function Range(n: nat): (r: seq<nat>)
    ensures |r| == n
    ensures forall i :: 0 <= i < n ==> r[i] == i
  {
    if n == 0 then [] else Range(n - 1) + [n - 1]
  }

  /** The indices j < k with values[j] == x, in ascending order. */
  function IndicesOf(values: seq<int>, x: int, k: nat): seq<nat>
    requires k <= |values|
  {
    if k == 0 then []
    else IndicesOf(values, x, k - 1) + (if values[k - 1] == x then [k - 1] else [])
  }

  /** The largest of values[0..k]. */
  function Top(values: seq<int>, k: nat): (m: int)
    requires 0 < k <= |values|
    ensures forall j :: 0 <= j < k ==> values[j] <= m
    ensures exists j :: 0 <= j < k && values[j] == m
  {
    if k == 1 then values[0]
    else
      var m := Top(values, k - 1);
      if values[k - 1] > m then values[k - 1] else m
  }

  /** The largest total of a non-empty sequence. */
  function Largest(values: seq<int>): int
    requires |values| > 0
  {
    Top(values, |values|)
  }

  /** The smallest non-zero value among values[0..k], if there is one. */
  function SmallestNonZero(values: seq<int>, k: nat): (r: Option<int>)
    requires k <= |values|
    ensures r.None? <==> forall j :: 0 <= j < k ==> values[j] == 0
    ensures r.Some? ==> r.value != 0
    ensures r.Some? ==> exists j :: 0 <= j < k && values[j] == r.value
    ensures r.Some? ==> forall j :: 0 <= j < k && values[j] != 0 ==> r.value <= values[j]
  {
    if k == 0 then None
    else
      var p := SmallestNonZero(values, k - 1);
      var v := values[k - 1];
      if v == 0 then p
      else if p.None? || v < p.value then Some(v)
      else p
  }

  /** Every index below n occurs exactly once in the split, and nothing else does. */
  predicate Partitions(s: Split, n: nat)
  {
    multiset(s.winners + s.losers) == multiset(Range(n))
  }

  lemma {:induction false} IndicesOfMembers(values: seq<int>, x: int, k: nat)
    requires k <= |values|
    ensures forall j :: j in IndicesOf(values, x, k) <==> 0 <= j < k && values[j] == x
    ensures forall a, b :: 0 <= a < b < |IndicesOf(values, x, k)| ==>
              IndicesOf(values, x, k)[a] < IndicesOf(values, x, k)[b]
  {
    if k > 0 {
      IndicesOfMembers(values, x, k - 1);
      var prev := IndicesOf(values, x, k - 1);
      assert forall a :: 0 <= a < |prev| ==> prev[a] < k - 1 by {
        forall a | 0 <= a < |prev| ensures prev[a] < k - 1 {
          assert prev[a] in prev;
        }
      }
    }
  }

  lemma {:induction false} IndicesOfAbsent(values: seq<int>, x: int, k: nat)
    requires k <= |values|
    requires forall j :: 0 <= j < k ==> values[j] != x
    ensures IndicesOf(values, x, k) == []
  {
    if k > 0 {
      IndicesOfAbsent(values, x, k - 1);
    }
  }

  lemma {:induction false} RangeCounts(n: nat)
    ensures forall j :: 0 <= j < n ==> multiset(Range(n))[j] == 1
    ensures forall j :: j in multiset(Range(n)) ==> j < n
  {
    if n > 0 {
      RangeCounts(n - 1);
      var prev := multiset(Range(n - 1));
      assert multiset(Range(n)) == prev + multiset{n - 1};
      assert prev[n - 1] == 0;
      forall j | 0 <= j < n
        ensures multiset(Range(n))[j] == 1
      {
        if j < n - 1 {
          assert prev[j] == 1;
        }
      }
    }
  }

  // ---------------------------------------------------------------- majority

  /** What holds of resolveMajority's loop state after the first i totals. */
  ghost predicate MajorityInvariant(values: seq<int>, i: nat, best: int, acc: Split)
    requires 0 < |values| && i <= |values|
  {
    (if i == 0 then best == values[0] else best == Top(values, i))
    && acc.winners == IndicesOf(values, best, i)
    && multiset(acc.winners + acc.losers) == multiset(Range(i))
    && (forall j :: j in acc.losers ==> j < i && values[j] < best)
  }

  /** One iteration of resolveMajority's loop on index i: a new maximum moves the
      current winners to the losers, a tie joins the winners, anything smaller loses. */
  function MajorityStep(values: seq<int>, i: nat, best: int, acc: Split): (int, Split)
    requires i < |values|
  {
    var v := values[i];
    if v > best then (v, Split([i], acc.losers + acc.winners))
    else if v == best then (best, Split(acc.winners + [i], acc.losers))
    else (best, Split(acc.winners, acc.losers + [i]))
  }

  lemma MajorityStepKeeps(values: seq<int>, i: nat, best: int, acc: Split)
    requires 0 < |values| && i < |values|
    requires MajorityInvariant(values, i, best, acc)
    ensures MajorityInvariant(values, i + 1, MajorityStep(values, i, best, acc).0,
                              MajorityStep(values, i, best, acc).1)
  {
    RangeStep(i);
    if values[i] > best {
      MajorityNewMax(values, i, best, acc);
    } else if values[i] == best {
      MajorityTie(values, i, best, acc);
    } else {
      MajorityBelow(values, i, best, acc);
    }
  }

  lemma RangeStep(i: nat)
    ensures multiset(Range(i + 1)) == multiset(Range(i)) + multiset{i}
  {
    assert Range(i + 1) == Range(i) + [i];
  }

  lemma MajorityNewMax(values: seq<int>, i: nat, best: int, acc: Split)
    requires 0 < |values| && i < |values|
    requires MajorityInvariant(values, i, best, acc)
    requires values[i] > best
    ensures MajorityInvariant(values, i + 1, values[i], Split([i], acc.losers + acc.winners))
  {
    var next := Split([i], acc.losers + acc.winners);
    assert i > 0;
    MajorityNewMaxWinners(values, i, best);
    SplitGrows(acc.winners, acc.losers, [i], acc.losers + acc.winners, i);
    MajorityNewMaxLosers(values, i, best, acc);
  }

  /** A new maximum at index i is its only occurrence so far. */
  lemma MajorityNewMaxWinners(values: seq<int>, i: nat, best: int)
    requires 0 < i < |values|
    requires best == Top(values, i) && values[i] > best
    ensures Top(values, i + 1) == values[i]
    ensures IndicesOf(values, values[i], i + 1) == [i]
  {
    var v := values[i];
    forall j | 0 <= j < i
      ensures values[j] != v
    {
      assert values[j] <= Top(values, i);
    }
    IndicesOfAbsent(values, v, i);
  }

  /** Under a new maximum, the old losers and the old winners all lose. */
  lemma MajorityNewMaxLosers(values: seq<int>, i: nat, best: int, acc: Split)
    requires 0 < i < |values|
    requires acc.winners == IndicesOf(values, best, i)
    requires forall j :: j in acc.losers ==> j < i && values[j] < best
    requires values[i] > best
    ensures forall j :: j in acc.losers + acc.winners ==> j < i + 1 && values[j] < values[i]
  {
    IndicesOfMembers(values, best, i);
    forall j | j in acc.losers + acc.winners
      ensures j < i + 1 && values[j] < values[i]
    {
      if j !in acc.losers {
        assert j in acc.winners;
      }
    }
  }

  lemma MajorityTie(values: seq<int>, i: nat, best: int, acc: Split)
    requires 0 < |values| && i < |values|
    requires MajorityInvariant(values, i, best, acc)
    requires values[i] == best
    ensures MajorityInvariant(values, i + 1, best, Split(acc.winners + [i], acc.losers))
  {
    assert Top(values, i + 1) == best;
    assert IndicesOf(values, best, i + 1) == acc.winners + [i];
    SplitGrows(acc.winners, acc.losers, acc.winners + [i], acc.losers, i);
  }

  lemma MajorityBelow(values: seq<int>, i: nat, best: int, acc: Split)
    requires 0 < |values| && i < |values|
    requires MajorityInvariant(values, i, best, acc)
    requires values[i] < best
    ensures MajorityInvariant(values, i + 1, best, Split(acc.winners, acc.losers + [i]))
  {
    assert i > 0;
    assert Top(values, i + 1) == best;
    assert IndicesOf(values, best, i + 1) == acc.winners;
    SplitGrows(acc.winners, acc.losers, acc.winners, acc.losers + [i], i);
  }

  /** Adding index i to either side of a split of 0..i - 1 splits 0..i. */
  lemma SplitGrows(w: seq<nat>, l: seq<nat>, w': seq<nat>, l': seq<nat>, i: nat)
    requires multiset(w + l) == multiset(Range(i))
    requires (w' == w + [i] && l' == l) || (w' == w && l' == l + [i]) || (w' == [i] && l' == l + w)
    ensures multiset(w' + l') == multiset(Range(i + 1))
  {
    RangeStep(i);
  }

  /** The loop of resolveMajority from index i on, with running maximum best. */
  function MajorityFrom(values: seq<int>, i: nat, best: int, acc: Split): (r: Split)
    requires 0 < |values| && i <= |values|
    requires MajorityInvariant(values, i, best, acc)
    ensures r.winners == IndicesOf(values, Largest(values), |values|)
    ensures Partitions(r, |values|)
    ensures forall j :: j in r.losers ==> j < |values| && values[j] < Largest(values)
    decreases |values| - i
  {
    if i == |values| then
      MajorityDone(values, best, acc);
      acc
    else
      MajorityStepKeeps(values, i, best, acc);
      var (best', acc') := MajorityStep(values, i, best, acc);
      MajorityFrom(values, i + 1, best', acc')
  }

  /** Once every total has been seen, the running maximum is the largest total. */
  lemma MajorityDone(values: seq<int>, best: int, acc: Split)
    requires 0 < |values|
    requires MajorityInvariant(values, |values|, best, acc)
    ensures best == Largest(values)
    ensures acc.winners == IndicesOf(values, Largest(values), |values|)
    ensures Partitions(acc, |values|)
    ensures forall j :: j in acc.losers ==> j < |values| && values[j] < Largest(values)
  {
  }

  /** resolveMajority: the running maximum starts at the first total. */
  function ResolveMajority(values: seq<int>): (r: Split)
    requires |values| > 0
    ensures r.winners == IndicesOf(values, Largest(values), |values|)
    ensures Partitions(r, |values|)
    ensures forall j :: j in r.losers ==> j < |values| && values[j] < Largest(values)
  {
    MajorityFrom(values, 0, values[0], Split([], []))
  }

  // ---------------------------------------------------------------- minority

  /** The running minimum resolveMinority holds after the first i totals. */
  function MinorityCursor(values: seq<int>, i: nat): int
    requires 0 < |values| && i <= |values|
  {
    var s := SmallestNonZero(values, i);
    if s.None? then Largest(values) else s.value
  }

  /** The winners resolveMinority holds after the first i totals. */
  function MinorityWinnersSoFar(values: seq<int>, i: nat): seq<nat>
    requires i <= |values|
  {
    var s := SmallestNonZero(values, i);
    if s.None? then [] else IndicesOf(values, s.value, i)
  }

  /** What holds of resolveMinority's second loop after the first i totals. */
  ghost predicate MinorityInvariant(values: seq<int>, i: nat, cur: int, acc: Split)
    requires 0 < |values| && i <= |values|
  {
    cur == MinorityCursor(values, i)
    && acc.winners == MinorityWinnersSoFar(values, i)
    && multiset(acc.winners + acc.losers) == multiset(Range(i))
    && (forall j :: j in acc.losers ==> j < i && (values[j] == 0 || values[j] > cur))
    && (SmallestNonZero(values, i).None? ==> acc.losers == Range(i))
  }

  /** One iteration of resolveMinority's second loop on index i: a zero total
      loses outright, a new minimum moves the current winners to the losers, a tie
      joins the winners, anything larger loses. */
  function MinorityStep(values: seq<int>, i: nat, cur: int, acc: Split): (int, Split)
    requires i < |values|
  {
    var v := values[i];
    if v == 0 then (cur, Split(acc.winners, acc.losers + [i]))
    else if v < cur then (v, Split([i], acc.losers + acc.winners))
    else if v == cur then (cur, Split(acc.winners + [i], acc.losers))
    else (cur, Split(acc.winners, acc.losers + [i]))
  }

  lemma MinorityStepKeeps(values: seq<int>, i: nat, cur: int, acc: Split)
    requires 0 < |values| && i < |values|
    requires MinorityInvariant(values, i, cur, acc)
    ensures MinorityInvariant(values, i + 1, MinorityStep(values, i, cur, acc).0,
                              MinorityStep(values, i, cur, acc).1)
  {
    var v := values[i];
    if v == 0 {
      MinorityZero(values, i, cur, acc);
    } else if v < cur {
      MinorityNewMin(values, i, cur, acc);
    } else if v == cur {
      MinorityTie(values, i, cur, acc);
    } else {
      MinorityAbove(values, i, cur, acc);
    }
  }

  lemma MinorityZero(values: seq<int>, i: nat, cur: int, acc: Split)
    requires 0 < |values| && i < |values|
    requires MinorityInvariant(values, i, cur, acc)
    requires values[i] == 0
    ensures MinorityInvariant(values, i + 1, cur, Split(acc.winners, acc.losers + [i]))
  {
    var m := SmallestNonZero(values, i);
    assert SmallestNonZero(values, i + 1) == m;
    if m.Some? {
      assert values[i] != m.value;
      assert IndicesOf(values, m.value, i + 1) == IndicesOf(values, m.value, i);
    } else {
      assert Range(i + 1) == Range(i) + [i];
    }
    SplitGrows(acc.winners, acc.losers, acc.winners, acc.losers + [i], i);
  }

  lemma MinorityNewMin(values: seq<int>, i: nat, cur: int, acc: Split)
    requires 0 < |values| && i < |values|
    requires MinorityInvariant(values, i, cur, acc)
    requires values[i] != 0 && values[i] < cur
    ensures MinorityInvariant(values, i + 1, values[i], Split([i], acc.losers + acc.winners))
  {
    SplitGrows(acc.winners, acc.losers, [i], acc.losers + acc.winners, i);
    MinorityNewMinWinners(values, i, cur);
    MinorityNewMinLosers(values, i, cur, acc);
  }

  /** After a new minimum every earlier index is zero or above it. */
  lemma MinorityNewMinLosers(values: seq<int>, i: nat, cur: int, acc: Split)
    requires 0 < |values| && i < |values|
    requires MinorityInvariant(values, i, cur, acc)
    requires values[i] != 0 && values[i] < cur
    ensures forall j :: j in acc.losers + acc.winners ==>
              j < i + 1 && (values[j] == 0 || values[j] > values[i])
  {
    IndicesOfWinnersEqual(values, i, acc.winners);
    forall j | j in acc.losers + acc.winners
      ensures j < i + 1 && (values[j] == 0 || values[j] > values[i])
    {
      if j !in acc.losers {
        assert j in acc.winners;
      }
    }
  }

  /** A new non-zero minimum at index i becomes the only winner so far. */
  lemma MinorityNewMinWinners(values: seq<int>, i: nat, cur: int)
    requires 0 < |values| && i < |values|
    requires cur == MinorityCursor(values, i)
    requires values[i] != 0 && values[i] < cur
    ensures SmallestNonZero(values, i + 1) == Some(values[i])
    ensures MinorityCursor(values, i + 1) == values[i]
    ensures MinorityWinnersSoFar(values, i + 1) == [i]
  {
    var v := values[i];
    var s := SmallestNonZero(values, i);
    assert SmallestNonZero(values, i + 1) == Some(v) by {
      assert s.None? || v < s.value;
    }
    forall j | 0 <= j < i
      ensures values[j] != v
    {
      if values[j] != 0 {
        assert s.Some? && s.value <= values[j];
      }
    }
    IndicesOfAbsent(values, v, i);
  }

  lemma MinorityTie(values: seq<int>, i: nat, cur: int, acc: Split)
    requires 0 < |values| && i < |values|
    requires MinorityInvariant(values, i, cur, acc)
    requires values[i] != 0 && values[i] == cur
    ensures MinorityInvariant(values, i + 1, cur, Split(acc.winners + [i], acc.losers))
  {
    var v := values[i];
    assert SmallestNonZero(values, i + 1) == Some(v);
    if SmallestNonZero(values, i).None? {
      IndicesOfAbsentWhenAllZero(values, v, i);
    }
    assert MinorityWinnersSoFar(values, i + 1) == acc.winners + [i];
    SplitGrows(acc.winners, acc.losers, acc.winners + [i], acc.losers, i);
  }

  lemma MinorityAbove(values: seq<int>, i: nat, cur: int, acc: Split)
    requires 0 < |values| && i < |values|
    requires MinorityInvariant(values, i, cur, acc)
    requires values[i] != 0 && values[i] > cur
    ensures MinorityInvariant(values, i + 1, cur, Split(acc.winners, acc.losers + [i]))
  {
    var v := values[i];
    var m := SmallestNonZero(values, i);
    assert v <= Largest(values);
    assert m.Some? && cur == m.value;
    assert SmallestNonZero(values, i + 1) == m;
    assert MinorityWinnersSoFar(values, i + 1) == acc.winners;
    SplitGrows(acc.winners, acc.losers, acc.winners, acc.losers + [i], i);
  }

  /** The second loop of resolveMinority from index i on, with running minimum cur. */
  function MinorityFrom(values: seq<int>, i: nat, cur: int, acc: Split): (r: Split)
    requires 0 < |values| && i <= |values|
    requires MinorityInvariant(values, i, cur, acc)
    ensures MinorityInvariant(values, |values|, MinorityCursor(values, |values|), r)
    decreases |values| - i
  {
    if i == |values| then acc
    else
      MinorityStepKeeps(values, i, cur, acc);
      var (cur', acc') := MinorityStep(values, i, cur, acc);
      MinorityFrom(values, i + 1, cur', acc')
  }

  lemma IndicesOfWinnersEqual(values: seq<int>, i: nat, winners: seq<nat>)
    requires i <= |values|
    requires winners == MinorityWinnersSoFar(values, i)
    ensures forall j :: j in winners ==> j < i && values[j] == SmallestNonZero(values, i).value
  {
    if SmallestNonZero(values, i).Some? {
      IndicesOfMembers(values, SmallestNonZero(values, i).value, i);
    }
  }

  lemma IndicesOfAbsentWhenAllZero(values: seq<int>, x: int, i: nat)
    requires i <= |values| && x != 0
    requires SmallestNonZero(values, i).None?
    ensures IndicesOf(values, x, i) == []
  {
    IndicesOfAbsent(values, x, i);
  }

  /** resolveMinority: the running minimum starts at the largest total, so that a
      zero total never becomes the minimum while some total is non-zero. */
  function ResolveMinority(values: seq<int>): (r: Split)
    requires |values| > 0
    ensures SmallestNonZero(values, |values|).None? ==> r.winners == [] && r.losers == Range(|values|)
    ensures SmallestNonZero(values, |values|).Some? ==>
              r.winners == IndicesOf(values, SmallestNonZero(values, |values|).value, |values|)
    ensures Partitions(r, |values|)
    ensures forall j :: j in r.losers ==>
              j < |values| && (values[j] == 0 || values[j] > MinorityCursor(values, |values|))
  {
    var r := MinorityFrom(values, 0, Largest(values), Split([], []));
    assert MinorityInvariant(values, |values|, MinorityCursor(values, |values|), r);
    r
  }

  // ---------------------------------------------------------------- properties

  /** Majority winners are exactly the arg-max indices, in ascending order, and
      there is at least one of them. */
  lemma MajorityWinners(values: seq<int>)
    requires |values| > 0
    ensures |ResolveMajority(values).winners| > 0
    ensures forall j :: j in ResolveMajority(values).winners <==>
              0 <= j < |values| && forall k :: 0 <= k < |values| ==> values[k] <= values[j]
    ensures forall a, b :: 0 <= a < b < |ResolveMajority(values).winners| ==>
              ResolveMajority(values).winners[a] < ResolveMajority(values).winners[b]
  {
    var r := ResolveMajority(values);
    var top := Largest(values);
    IndicesOfMembers(values, top, |values|);
    var j :| 0 <= j < |values| && values[j] == top;
    assert j in r.winners;
  }

  /** Every index occurs exactly once among majority winners and losers. */
  lemma MajorityPartition(values: seq<int>)
    requires |values| > 0
    ensures forall j :: 0 <= j < |values| ==>
              multiset(ResolveMajority(values).winners + ResolveMajority(values).losers)[j] == 1
    ensures forall j :: j in ResolveMajority(values).winners + ResolveMajority(values).losers ==>
              j < |values|
  {
    RangeCounts(|values|);
    var r := ResolveMajority(values);
    forall j | j in r.winners + r.losers
      ensures j < |values|
    {
      assert j in multiset(r.winners + r.losers);
    }
  }

  /** Minority winners are exactly the indices holding the smallest non-zero total. */
  lemma MinorityWinners(values: seq<int>)
    requires |values| > 0
    ensures forall j :: j in ResolveMinority(values).winners <==>
              0 <= j < |values| && values[j] != 0 &&
              forall k :: 0 <= k < |values| && values[k] != 0 ==> values[j] <= values[k]
    ensures forall a, b :: 0 <= a < b < |ResolveMinority(values).winners| ==>
              ResolveMinority(values).winners[a] < ResolveMinority(values).winners[b]
  {
    var n := |values|;
    var s := SmallestNonZero(values, n);
    if s.Some? {
      IndicesOfMembers(values, s.value, n);
      var w :| 0 <= w < n && values[w] == s.value;
    }
  }

  /** A zero total never wins in minority mode; with every total zero there is no
      winner and every index is a loser, in ascending order. */
  lemma MinorityZeroesLose(values: seq<int>)
    requires |values| > 0
    ensures forall j :: 0 <= j < |values| && values[j] == 0 ==> j in ResolveMinority(values).losers
    ensures (forall j :: 0 <= j < |values| ==> values[j] == 0) ==>
              ResolveMinority(values).winners == [] && ResolveMinority(values).losers == Range(|values|)
  {
    var r := ResolveMinority(values);
    MinorityWinners(values);
    RangeCounts(|values|);
    forall j | 0 <= j < |values| && values[j] == 0
      ensures j in r.losers
    {
      assert j in multiset(r.winners + r.losers);
      assert j !in r.winners;
    }
  }

  /** Every index occurs exactly once among minority winners and losers. */
  lemma MinorityPartition(values: seq<int>)
    requires |values| > 0
    ensures forall j :: 0 <= j < |values| ==>
              multiset(ResolveMinority(values).winners + ResolveMinority(values).losers)[j] == 1
    ensures forall j :: j in ResolveMinority(values).winners + ResolveMinority(values).losers ==>
              j < |values|
  {
    RangeCounts(|values|);
    var r := ResolveMinority(values);
    forall j | j in r.winners + r.losers
      ensures j < |values|
    {
      assert j in multiset(r.winners + r.losers);
    }
  }
}
