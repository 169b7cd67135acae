/**
 Experience levels (game_logic.go, EXP_REQUIRED, GetLevelInfo and getLevel).
 EXP_REQUIRED lists the experience needed to go from each level to the next;
 the loops walk the table, subtracting each threshold that the remaining
 experience still covers.
 */
module Levels {

  /** Experience needed to go from level k + 1 to level k + 2. */
  const EXP_REQUIRED: seq<int> := [10, 20, 50, 100, 250, 500, 800, 1250, 2000]

  /** The highest level: one more than the number of thresholds. */
  const MAX_LEVEL: int := |EXP_REQUIRED| + 1

  /** Total experience needed to reach level k + 1: 0, 10, 30, 80, ..., 4980. */
  function Cumulative(k: nat): int
    requires k <= |EXP_REQUIRED|
  {
    if k == 0 then 0 else Cumulative(k - 1) + EXP_REQUIRED[k - 1]
  }

  /** How many of Cumulative(1), ..., Cumulative(k) are at most exp. */
  function CountReached(exp: int, k: nat): (n: nat)
    requires k <= |EXP_REQUIRED|
    ensures n <= k
  {
    if k == 0 then 0
    else CountReached(exp, k - 1) + (if Cumulative(k) <= exp then 1 else 0)
  }

  /** The level a player with the given experience has: one plus the number of
      cumulative thresholds the experience reaches. */
  function LevelOf(exp: int): int
  {
    1 + CountReached(exp, |EXP_REQUIRED|)
  }

  lemma {:induction false} CumulativeGrows(j: nat, k: nat)
    requires j < k <= |EXP_REQUIRED|
    ensures Cumulative(j) < Cumulative(k)
  {
    if j < k - 1 {
      CumulativeGrows(j, k - 1);
    }
  }

  /** Once every threshold past index i exceeds exp, the count stops growing. */
  lemma {:induction false} CountStops(exp: int, i: nat, k: nat)
    requires i < k <= |EXP_REQUIRED|
    requires exp < Cumulative(i + 1)
    ensures CountReached(exp, k) == CountReached(exp, i)
  {
    if k > i + 1 {
      CountStops(exp, i, k - 1);
      CumulativeGrows(i + 1, k);
    }
  }

  /** GetLevelInfo: the level, the experience gathered towards the next level and
      the size of that next step; at the top level both of the latter are 0. */
  method GetLevelInfo(exp: int) returns (level: int, progressToNext: int, nextMilestone: int)
    ensures level == LevelOf(exp)
    ensures 1 <= level <= MAX_LEVEL
    ensures level < MAX_LEVEL ==>
              nextMilestone == EXP_REQUIRED[level - 1] && progressToNext == exp - Cumulative(level - 1)
    ensures level == MAX_LEVEL ==> progressToNext == 0 && nextMilestone == 0
    ensures exp >= 0 && level < MAX_LEVEL ==> 0 <= progressToNext < nextMilestone
  {
    level := 1;
    progressToNext := 0;
    nextMilestone := 0;
    var rest := exp;
    var i := 0;
    while i < |EXP_REQUIRED|
      invariant 0 <= i <= |EXP_REQUIRED|
      invariant level == 1 + i
      invariant rest == exp - Cumulative(i)
      invariant CountReached(exp, i) == i
      invariant progressToNext == 0 && nextMilestone == 0
    {
      if rest >= EXP_REQUIRED[i] {
        rest := rest - EXP_REQUIRED[i];
        level := level + 1;
      } else {
        progressToNext := rest;
        nextMilestone := EXP_REQUIRED[i];
        CountStops(exp, i, |EXP_REQUIRED|);
        if i > 0 {
          CumulativeGrows(i - 1, i);
        }
        return;
      }
      i := i + 1;
    }
  }

  /** getLevel: the same walk as GetLevelInfo, keeping only the level. */
  method GetLevel(exp: int) returns (level: int)
    ensures level == LevelOf(exp)
    ensures 1 <= level <= MAX_LEVEL
  {
    level := 1;
    var rest := exp;
    var i := 0;
    while i < |EXP_REQUIRED|
      invariant 0 <= i <= |EXP_REQUIRED|
      invariant level == 1 + i
      invariant rest == exp - Cumulative(i)
      invariant CountReached(exp, i) == i
    {
      if rest >= EXP_REQUIRED[i] {
        rest := rest - EXP_REQUIRED[i];
        level := level + 1;
      } else {
        CountStops(exp, i, |EXP_REQUIRED|);
        return;
      }
      i := i + 1;
    }
  }

  /** More experience never means a lower level. */
  lemma {:induction false} LevelMonotone(exp1: int, exp2: int)
    requires exp1 <= exp2
    ensures 1 <= LevelOf(exp1) <= LevelOf(exp2) <= MAX_LEVEL
  {
    CountMonotone(exp1, exp2, |EXP_REQUIRED|);
  }

  lemma {:induction false} CountMonotone(exp1: int, exp2: int, k: nat)
    requires exp1 <= exp2 && k <= |EXP_REQUIRED|
    ensures CountReached(exp1, k) <= CountReached(exp2, k)
  {
    if k > 0 {
      CountMonotone(exp1, exp2, k - 1);
    }
  }

  /** The level reached with exactly each cumulative threshold, and one short of it. */
  lemma LevelAtThresholds(k: nat)
    requires 1 <= k <= |EXP_REQUIRED|
    ensures LevelOf(Cumulative(k)) == k + 1
    ensures LevelOf(Cumulative(k) - 1) == k
  {
    CountAllBelow(Cumulative(k), k);
    if k < |EXP_REQUIRED| {
      CumulativeGrows(k, k + 1);
      CountStops(Cumulative(k), k, |EXP_REQUIRED|);
    }
    if k > 1 {
      CumulativeGrows(k - 1, k);
    }
    CountAllBelow(Cumulative(k) - 1, k - 1);
    CountStops(Cumulative(k) - 1, k - 1, |EXP_REQUIRED|);
  }

  lemma {:induction false} CountAllBelow(exp: int, k: nat)
    requires k <= |EXP_REQUIRED|
    requires k > 0 ==> Cumulative(k) <= exp
    ensures CountReached(exp, k) == k
  {
    if k > 1 {
      CumulativeGrows(k - 1, k);
      CountAllBelow(exp, k - 1);
    }
  }

  /** The cumulative thresholds: level k + 1 is reached with Cumulative(k) experience. */
  lemma CumulativeTable()
    ensures [Cumulative(1), Cumulative(2), Cumulative(3), Cumulative(4), Cumulative(5),
             Cumulative(6), Cumulative(7), Cumulative(8), Cumulative(9)]
         == [10, 30, 80, 180, 430, 930, 1730, 2980, 4980]
  {
  }
}
