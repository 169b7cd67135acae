/**
 Votes grouped by option, as ResolveGame reads them (game_logic.go): votes[i]
 holds the votes cast on option i, and the option's total is the sum of their
 stakes. Gathering the votes of a list of options, and summing the totals of a
 list of options, do not depend on the order of that list.
 */
module Votes {
  import opened Payout
  import Users
  import Outcomes

  /** One vote: who cast it and how much it staked. */
  datatype Vote = Vote(userId: Users.UserId, money: int)

  /** The stakes of a list of votes, in order. */
  function Stakes(vs: seq<Vote>): (r: seq<int>)
    ensures |r| == |vs|
    ensures forall k :: 0 <= k < |vs| ==> r[k] == vs[k].money
  {
    seq(|vs|, k requires 0 <= k < |vs| => vs[k].money)
  }

  /** The stake total of every option. */
  function Totals(votes: seq<seq<Vote>>): (r: seq<int>)
    ensures |r| == |votes|
    ensures forall i :: 0 <= i < |votes| ==> r[i] == Sum(Stakes(votes[i]))
  {
    seq(|votes|, i requires 0 <= i < |votes| => Sum(Stakes(votes[i])))
  }

  predicate IndicesBelow(idxs: seq<nat>, n: nat)
  {
    forall k :: 0 <= k < |idxs| ==> idxs[k] < n
  }

  /** The votes of the listed options, option after option. */
  function Gather(votes: seq<seq<Vote>>, idxs: seq<nat>): seq<Vote>
    requires IndicesBelow(idxs, |votes|)
  {
    if |idxs| == 0 then [] else votes[idxs[0]] + Gather(votes, idxs[1..])
  }

  /** The sum of values over the listed indices. */
  function SumAt(values: seq<int>, idxs: seq<nat>): int
    requires IndicesBelow(idxs, |values|)
  {
    if |idxs| == 0 then 0 else values[idxs[0]] + SumAt(values, idxs[1..])
  }

  /** Every vote of the game, option by option. */
  function AllVotes(votes: seq<seq<Vote>>): seq<Vote>
  {
    Gather(votes, Outcomes.Range(|votes|))
  }

  predicate AllStakesNonNegative(votes: seq<seq<Vote>>)
  {
    forall i, k :: 0 <= i < |votes| && 0 <= k < |votes[i]| ==> votes[i][k].money >= 0
  }

  // ---------------------------------------------------------------- lemmas

  lemma {:induction false} SumConcat(a: seq<int>, b: seq<int>)
    ensures Sum(a + b) == Sum(a) + Sum(b)
  {
    if |b| == 0 {
      assert a + b == a;
    } else {
      SumConcat(a, b[..|b| - 1]);
      assert (a + b)[..|a + b| - 1] == a + b[..|b| - 1];
      assert (a + b)[|a + b| - 1] == b[|b| - 1];
    }
  }

  lemma {:induction false} GatherConcat(votes: seq<seq<Vote>>, a: seq<nat>, b: seq<nat>)
    requires IndicesBelow(a, |votes|) && IndicesBelow(b, |votes|)
    ensures IndicesBelow(a + b, |votes|)
    ensures Gather(votes, a + b) == Gather(votes, a) + Gather(votes, b)
  {
    if |a| == 0 {
      assert a + b == b;
    } else {
      GatherConcat(votes, a[1..], b);
      assert (a + b)[1..] == a[1..] + b;
      assert (a + b)[0] == a[0];
    }
  }

  lemma {:induction false} SumAtConcat(values: seq<int>, a: seq<nat>, b: seq<nat>)
    requires IndicesBelow(a, |values|) && IndicesBelow(b, |values|)
    ensures IndicesBelow(a + b, |values|)
    ensures SumAt(values, a + b) == SumAt(values, a) + SumAt(values, b)
  {
    if |a| == 0 {
      assert a + b == b;
    } else {
      SumAtConcat(values, a[1..], b);
      assert (a + b)[1..] == a[1..] + b;
      assert (a + b)[0] == a[0];
    }
  }

  /** The position of x in a sequence that contains it. */
  lemma Find(q: seq<nat>, x: nat) returns (i: nat)
    requires x in multiset(q)
    ensures i < |q| && q[i] == x
    ensures multiset(q[..i] + q[i + 1..]) == multiset(q) - multiset{x}
  {
    i :| 0 <= i < |q| && q[i] == x;
    assert q == q[..i] + [x] + q[i + 1..];
  }

  /** The listed indices before and after position i, and both together,
      stay below n. */
  lemma SlicesBelow(q: seq<nat>, n: nat, i: nat)
    requires IndicesBelow(q, n) && i < |q|
    ensures q == q[..i] + ([q[i]] + q[i + 1..])
    ensures IndicesBelow(q[..i], n) && IndicesBelow([q[i]], n) && IndicesBelow(q[i + 1..], n)
    ensures IndicesBelow(q[..i] + q[i + 1..], n)
  {
    assert q == q[..i] + ([q[i]] + q[i + 1..]);
  }

  /** Taking option q[i] out of a gather removes exactly its votes. */
  lemma GatherRemove(votes: seq<seq<Vote>>, q: seq<nat>, i: nat)
    requires IndicesBelow(q, |votes|) && i < |q|
    ensures IndicesBelow(q[..i] + q[i + 1..], |votes|)
    ensures multiset(Gather(votes, q))
         == multiset(votes[q[i]]) + multiset(Gather(votes, q[..i] + q[i + 1..]))
  {
    var a, x, b := q[..i], q[i], q[i + 1..];
    SlicesBelow(q, |votes|, i);
    GatherConcat(votes, a, [x] + b);
    GatherConcat(votes, [x], b);
    GatherConcat(votes, a, b);
    assert Gather(votes, [x]) == votes[x] + Gather(votes, []);
    var ga, gb := Gather(votes, a), Gather(votes, b);
    assert Gather(votes, q) == ga + (votes[x] + gb);
    assert multiset(Gather(votes, q)) == multiset(ga) + (multiset(votes[x]) + multiset(gb));
    assert multiset(Gather(votes, a + b)) == multiset(ga) + multiset(gb);
  }

  /** Taking index q[i] out of a sum removes exactly its value. */
  lemma SumAtRemove(values: seq<int>, q: seq<nat>, i: nat)
    requires IndicesBelow(q, |values|) && i < |q|
    ensures IndicesBelow(q[..i] + q[i + 1..], |values|)
    ensures SumAt(values, q) == values[q[i]] + SumAt(values, q[..i] + q[i + 1..])
  {
    var a, x, b := q[..i], q[i], q[i + 1..];
    SlicesBelow(q, |values|, i);
    SumAtConcat(values, a, [x] + b);
    SumAtConcat(values, [x], b);
    SumAtConcat(values, a, b);
    assert SumAt(values, [x]) == values[x] + SumAt(values, []);
  }

  /** Every gathered vote is a vote of one of the listed options. */
  lemma {:induction false} GatherOrigin(votes: seq<seq<Vote>>, idxs: seq<nat>, k: nat) returns (m: nat, j: nat)
    requires IndicesBelow(idxs, |votes|) && k < |Gather(votes, idxs)|
    ensures m < |idxs| && j < |votes[idxs[m]]| && Gather(votes, idxs)[k] == votes[idxs[m]][j]
  {
    var head := votes[idxs[0]];
    if k < |head| {
      m, j := 0, k;
    } else {
      var m', j' := GatherOrigin(votes, idxs[1..], k - |head|);
      m, j := m' + 1, j';
    }
  }

  /** Every vote of a listed option is gathered. */
  lemma {:induction false} GatherHas(votes: seq<seq<Vote>>, idxs: seq<nat>, m: nat, j: nat) returns (k: nat)
    requires IndicesBelow(idxs, |votes|) && m < |idxs| && j < |votes[idxs[m]]|
    ensures k < |Gather(votes, idxs)| && Gather(votes, idxs)[k] == votes[idxs[m]][j]
  {
    if m == 0 {
      k := j;
    } else {
      var k' := GatherHas(votes, idxs[1..], m - 1, j);
      k := |votes[idxs[0]]| + k';
    }
  }

  /** Gathering the same options in another order yields the same votes. */
  lemma {:induction false} GatherPermutation(votes: seq<seq<Vote>>, p: seq<nat>, q: seq<nat>)
    requires IndicesBelow(p, |votes|) && IndicesBelow(q, |votes|)
    requires multiset(p) == multiset(q)
    ensures multiset(Gather(votes, p)) == multiset(Gather(votes, q))
  {
    if |p| == 0 {
      assert |q| == |multiset(q)| == 0;
    } else {
      var x := p[0];
      assert p == [x] + p[1..];
      assert x in multiset(q);
      var i := Find(q, x);
      GatherRemove(votes, q, i);
      GatherPermutation(votes, p[1..], q[..i] + q[i + 1..]);
    }
  }

  /** Summing the same options in another order yields the same total. */
  lemma {:induction false} SumAtPermutation(values: seq<int>, p: seq<nat>, q: seq<nat>)
    requires IndicesBelow(p, |values|) && IndicesBelow(q, |values|)
    requires multiset(p) == multiset(q)
    ensures SumAt(values, p) == SumAt(values, q)
  {
    if |p| == 0 {
      assert |q| == |multiset(q)| == 0;
    } else {
      var x := p[0];
      assert p == [x] + p[1..];
      assert x in multiset(q);
      var i := Find(q, x);
      SumAtRemove(values, q, i);
      SumAtPermutation(values, p[1..], q[..i] + q[i + 1..]);
    }
  }

  /** Summing over 0..k - 1 is summing the first k values. */
  lemma {:induction false} SumAtRange(values: seq<int>, k: nat)
    requires k <= |values|
    ensures IndicesBelow(Outcomes.Range(k), |values|)
    ensures SumAt(values, Outcomes.Range(k)) == Sum(values[..k])
  {
    if k > 0 {
      SumAtRange(values, k - 1);
      SumAtConcat(values, Outcomes.Range(k - 1), [k - 1]);
      assert values[..k][..k - 1] == values[..k - 1];
    }
  }

  /** The stakes of the gathered votes add up to the totals of their options. */
  lemma {:induction false} GatherStakes(votes: seq<seq<Vote>>, idxs: seq<nat>)
    requires IndicesBelow(idxs, |votes|)
    ensures Sum(Stakes(Gather(votes, idxs))) == SumAt(Totals(votes), idxs)
  {
    if |idxs| > 0 {
      GatherStakes(votes, idxs[1..]);
      var head := votes[idxs[0]];
      var tail := Gather(votes, idxs[1..]);
      assert Stakes(head + tail) == Stakes(head) + Stakes(tail);
      SumConcat(Stakes(head), Stakes(tail));
    }
  }

  /** Gathered votes of non-negative stakes have non-negative stakes. */
  lemma GatherNonNegative(votes: seq<seq<Vote>>, idxs: seq<nat>)
    requires IndicesBelow(idxs, |votes|) && AllStakesNonNegative(votes)
    ensures AllNonNegative(Stakes(Gather(votes, idxs)))
  {
    if |idxs| > 0 {
      GatherNonNegative(votes, idxs[1..]);
    }
  }

  lemma {:induction false} SumAtNonNegative(values: seq<int>, idxs: seq<nat>)
    requires IndicesBelow(idxs, |values|)
    requires forall i :: 0 <= i < |values| ==> values[i] >= 0
    ensures SumAt(values, idxs) >= 0
    ensures forall k :: 0 <= k < |idxs| ==> SumAt(values, idxs) >= values[idxs[k]]
  {
    if |idxs| > 0 {
      SumAtNonNegative(values, idxs[1..]);
      forall k | 0 < k < |idxs|
        ensures SumAt(values, idxs) >= values[idxs[k]]
      {
        assert idxs[1..][k - 1] == idxs[k];
      }
    }
  }

  lemma {:induction false} SumNonNegative(xs: seq<int>)
    requires AllNonNegative(xs)
    ensures Sum(xs) >= 0
  {
    if |xs| > 0 {
      SumNonNegative(xs[..|xs| - 1]);
    }
  }

  lemma {:induction false} SumPointwise(xs: seq<int>, ys: seq<int>, zs: seq<int>)
    requires |xs| == |ys| == |zs|
    requires forall k :: 0 <= k < |zs| ==> zs[k] == xs[k] + ys[k]
    ensures Sum(zs) == Sum(xs) + Sum(ys)
  {
    if |zs| > 0 {
      var n := |zs| - 1;
      SumPointwise(xs[..n], ys[..n], zs[..n]);
    }
  }

  lemma {:induction false} SumConstant(zs: seq<int>, c: int)
    requires forall k :: 0 <= k < |zs| ==> zs[k] == c
    ensures Sum(zs) == c * |zs|
  {
    if |zs| > 0 {
      SumConstant(zs[..|zs| - 1], c);
    }
  }
}
