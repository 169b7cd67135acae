/**
 Pari-mutuel payout arithmetic (game_logic.go, ResolveGame). A winning vote
 with stake s gets back s plus its share of the losing pool, the share being
 s / W * L converted to an integer, where W is the winning pool and L the
 losing pool. The conversion truncates toward zero; the model computes the
 share exactly, without the intermediate floating-point rounding.
 */
module Payout {

  /** Integer division that truncates toward zero, as a float-to-int conversion does. */
  function TruncDiv(a: int, b: int): (q: int)
    requires b != 0
    ensures a >= 0 && b > 0 ==> q == a / b
  {
    var m := (if a < 0 then -a else a) / (if b < 0 then -b else b);
    if (a < 0) == (b < 0) then m else -m
  }

  /** The part of the losing pool a stake s wins. The source divides 0 by 0 when
      the winning pool is empty; the model takes the share to be 0 then. */
  function Share(s: int, winPool: int, losePool: int): (r: int)
    ensures winPool > 0 && s >= 0 && losePool >= 0 ==>
              0 <= r && r * winPool <= s * losePool < (r + 1) * winPool
  {
    if winPool == 0 then 0
    else if winPool > 0 && s * losePool >= 0 then
      DivBounds(s * losePool, winPool);
      TruncDiv(s * losePool, winPool)
    else TruncDiv(s * losePool, winPool)
  }

  lemma DivBounds(a: int, b: int)
    requires a >= 0 && b > 0
    ensures 0 <= a / b && (a / b) * b <= a < (a / b + 1) * b
  {
    assert a == (a / b) * b + a % b;
  }

  /** What a winning vote with stake s is credited: the stake back plus its
      share, so the gain over the stake is s / winPool * losePool truncated. */
  function Credit(s: int, winPool: int, losePool: int): (c: int)
    ensures winPool > 0 && s >= 0 && losePool >= 0 ==>
              s <= c && (c - s) * winPool <= s * losePool < (c - s + 1) * winPool
  {
    s + Share(s, winPool, losePool)
  }

  function Sum(xs: seq<int>): int
  {
    if |xs| == 0 then 0 else Sum(xs[..|xs| - 1]) + xs[|xs| - 1]
  }

  /** The shares of every stake in ss, in order. */
  function Shares(ss: seq<int>, winPool: int, losePool: int): (r: seq<int>)
    ensures |r| == |ss|
    ensures forall k :: 0 <= k < |ss| ==> r[k] == Share(ss[k], winPool, losePool)
  {
    if |ss| == 0 then [] else Shares(ss[..|ss| - 1], winPool, losePool) + [Share(ss[|ss| - 1], winPool, losePool)]
  }

  predicate AllNonNegative(ss: seq<int>)
  {
    forall k :: 0 <= k < |ss| ==> ss[k] >= 0
  }

  // ---------------------------------------------------------------- properties

  lemma Distribute(a: int, b: int, c: int)
    ensures (a + b) * c == a * c + b * c
  {
  }

  lemma MulCancel(a: int, b: int, w: int)
    requires w > 0 && a * w <= b * w
    ensures a <= b
  {
  }

  lemma MulCancelStrict(a: int, b: int, w: int)
    requires w > 0 && a * w < b * w
    ensures a < b
  {
  }

  lemma MulMono(a: int, b: int, c: int)
    requires a <= b && c >= 0
    ensures a * c <= b * c
  {
  }

  /** A winner never gets back less than its stake, nor more than its stake plus
      the whole losing pool. */
  lemma CreditBounds(s: int, winPool: int, losePool: int)
    requires 0 <= s <= winPool && losePool >= 0
    ensures s <= Credit(s, winPool, losePool) <= s + losePool
  {
    if winPool > 0 {
      var r := Share(s, winPool, losePool);
      MulMono(s, winPool, losePool);
      assert r * winPool <= losePool * winPool;
      MulCancel(r, losePool, winPool);
    }
  }

  lemma SumSplit(xs: seq<int>)
    requires |xs| > 0
    ensures Sum(xs) == Sum(xs[..|xs| - 1]) + xs[|xs| - 1]
  {
  }

  lemma {:induction false} SharesScaledBelow(ss: seq<int>, winPool: int, losePool: int)
    requires winPool > 0 && losePool >= 0 && AllNonNegative(ss)
    ensures Sum(Shares(ss, winPool, losePool)) * winPool <= Sum(ss) * losePool
  {
    if |ss| > 0 {
      var init := ss[..|ss| - 1];
      var s := ss[|ss| - 1];
      var sh := Shares(ss, winPool, losePool);
      var r := Share(s, winPool, losePool);
      SharesScaledBelow(init, winPool, losePool);
      var a := Sum(Shares(init, winPool, losePool));
      assert sh[..|ss| - 1] == Shares(init, winPool, losePool);
      SumSplit(sh);
      Distribute(a, r, winPool);
      Distribute(Sum(init), s, losePool);
    }
  }

  lemma {:induction false} SharesScaledAbove(ss: seq<int>, winPool: int, losePool: int)
    requires winPool > 0 && losePool >= 0 && AllNonNegative(ss) && |ss| > 0
    ensures Sum(ss) * losePool < (Sum(Shares(ss, winPool, losePool)) + |ss|) * winPool
  {
    var init := ss[..|ss| - 1];
    var s := ss[|ss| - 1];
    var sh := Shares(ss, winPool, losePool);
    var r := Share(s, winPool, losePool);
    var a := Sum(Shares(init, winPool, losePool));
    assert sh[..|ss| - 1] == Shares(init, winPool, losePool);
    SumSplit(sh);
    Distribute(Sum(init), s, losePool);
    Distribute(a + |init|, r + 1, winPool);
    if |init| > 0 {
      SharesScaledAbove(init, winPool, losePool);
    } else {
      assert Sum(init) == 0 && a == 0;
    }
  }

  /** Rounding never hands out more than the losing pool, and what stays
      undistributed is less than one coin per winning vote. */
  lemma BonusesWithinLosingPool(ss: seq<int>, losePool: int)
    requires AllNonNegative(ss) && Sum(ss) > 0 && losePool >= 0
    ensures losePool - |ss| < Sum(Shares(ss, Sum(ss), losePool)) <= losePool
  {
    var w := Sum(ss);
    var x := Sum(Shares(ss, w, losePool));
    SharesScaledBelow(ss, w, losePool);
    assert x * w <= losePool * w;
    MulCancel(x, losePool, w);
    assert |ss| > 0;
    SharesScaledAbove(ss, w, losePool);
    assert losePool * w < (x + |ss|) * w;
    MulCancelStrict(losePool, x + |ss|, w);
  }
}
