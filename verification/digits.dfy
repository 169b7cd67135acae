/**
 Decimal digit sequences, most significant digit first, and their values. Both
 the net-change caption and the bet field of the game screen are read through
 this one definition.
 */
module Digits {

  type Digit = d: int | 0 <= d <= 9

  function Pow10(k: nat): (r: nat)
    ensures r >= 1
  {
    if k == 0 then 1 else 10 * Pow10(k - 1)
  }

  /** The value of a digit sequence; the empty sequence is worth 0. */
  function DigitsValue(ds: seq<Digit>): nat
  {
    if |ds| == 0 then 0 else DigitsValue(ds[..|ds| - 1]) * 10 + ds[|ds| - 1]
  }

  lemma ShiftDigit(x: int, p: int, y: int, d: int)
    ensures (x * p + y) * 10 + d == x * (p * 10) + (y * 10 + d)
  {
  }

  /** k digits are worth less than 10^k. */
  lemma {:induction false} DigitsValueBound(b: seq<Digit>)
    ensures DigitsValue(b) < Pow10(|b|)
  {
    if |b| > 0 {
      DigitsValueBound(b[..|b| - 1]);
    }
  }

  /** Appending digits shifts the value of the leading ones. */
  lemma {:induction false} DigitsValueConcat(a: seq<Digit>, b: seq<Digit>)
    ensures DigitsValue(a + b) == DigitsValue(a) * Pow10(|b|) + DigitsValue(b)
  {
    if |b| == 0 {
      assert a + b == a;
    } else {
      var bi := b[..|b| - 1];
      DigitsValueConcat(a, bi);
      assert (a + b)[..|a + b| - 1] == a + bi;
      ShiftDigit(DigitsValue(a), Pow10(|bi|), DigitsValue(bi), b[|b| - 1]);
    }
  }
}
