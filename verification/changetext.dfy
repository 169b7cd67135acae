/**
 The net-change caption of a resolved vote (GameScreen.js, parseChange): a
 negative change reads "loss: " followed by its magnitude, anything else
 "gained: " followed by the value, both written in decimal as JavaScript
 writes an integer.
 */
module ChangeText {
  import opened Wrappers
  import opened Digits

  const LOSS_PREFIX: string := "loss: "
  const GAIN_PREFIX: string := "gained: "

  predicate IsDigit(c: char)
  {
    '0' <= c <= '9'
  }

  function DigitChar(d: Digit): (c: char)
    ensures IsDigit(c)
  {
    ('0' as int + d) as char
  }

  function DigitValue(c: char): (d: Digit)
    requires IsDigit(c)
    ensures DigitChar(d) == c
  {
    c as int - '0' as int
  }

  /** Digits only, at least one, and no leading zero unless the numeral is 0. */
  predicate Canonical(s: string)
  {
    |s| > 0 && (forall k :: 0 <= k < |s| ==> IsDigit(s[k])) && (|s| > 1 ==> s[0] != '0')
  }

  /** The decimal numeral of n, most significant digit first. */
  function Decimal(n: nat): (s: string)
    ensures Canonical(s)
  {
    if n < 10 then [DigitChar(n)] else Decimal(n / 10) + [DigitChar(n % 10)]
  }

  /** The digits a numeral spells. */
  function DigitsOf(s: string): (ds: seq<Digit>)
    requires forall k :: 0 <= k < |s| ==> IsDigit(s[k])
    ensures |ds| == |s|
    ensures forall k :: 0 <= k < |s| ==> DigitChar(ds[k]) == s[k]
  {
    seq(|s|, k requires 0 <= k < |s| => DigitValue(s[k]))
  }

  /** The value of a numeral. */
  function ValueOf(s: string): nat
    requires forall k :: 0 <= k < |s| ==> IsDigit(s[k])
  {
    DigitsValue(DigitsOf(s))
  }

  lemma ValueOfLast(s: string)
    requires forall k :: 0 <= k < |s| ==> IsDigit(s[k])
    requires |s| > 0
    ensures ValueOf(s) == ValueOf(s[..|s| - 1]) * 10 + DigitValue(s[|s| - 1])
  {
    assert DigitsOf(s)[..|s| - 1] == DigitsOf(s[..|s| - 1]);
  }

  /** parseChange: the caption of a vote's net change. */
  function ParseChange(netChange: int): (s: string)
    ensures netChange < 0 <==> LOSS_PREFIX <= s
    ensures netChange >= 0 <==> GAIN_PREFIX <= s
  {
    var s := if netChange < 0 then LOSS_PREFIX + Decimal(-netChange) else GAIN_PREFIX + Decimal(netChange);
    assert s[0] == if netChange < 0 then 'l' else 'g';
    s
  }

  /** Reading a caption back: the change it shows, if it is one parseChange writes. */
  function ReadChange(s: string): (r: Option<int>)
  {
    if LOSS_PREFIX <= s && Canonical(s[|LOSS_PREFIX|..]) && ValueOf(s[|LOSS_PREFIX|..]) > 0 then
      Some(0 - ValueOf(s[|LOSS_PREFIX|..]))
    else if GAIN_PREFIX <= s && Canonical(s[|GAIN_PREFIX|..]) then
      Some(ValueOf(s[|GAIN_PREFIX|..]))
    else None
  }

  // ---------------------------------------------------------------- properties

  /** Reading a numeral gives back the number it was written from. */
  lemma {:induction false} DecimalValue(n: nat)
    ensures ValueOf(Decimal(n)) == n
  {
    var s := Decimal(n);
    ValueOfLast(s);
    if n >= 10 {
      DecimalValue(n / 10);
      assert s[..|s| - 1] == Decimal(n / 10);
    } else {
      assert s[..0] == [];
    }
  }

  /** A canonical numeral of two or more digits is worth at least 10. */
  lemma {:induction false} CanonicalAtLeastTen(s: string)
    requires Canonical(s) && |s| > 1
    ensures ValueOf(s) >= 10
  {
    var init := s[..|s| - 1];
    ValueOfLast(s);
    if |init| > 1 {
      CanonicalAtLeastTen(init);
    } else {
      ValueOfLast(init);
      assert init[..0] == [];
      assert DigitValue(init[0]) > 0;
    }
  }

  /** Writing the value of a canonical numeral gives the numeral back. */
  lemma {:induction false} ValueDecimal(s: string)
    requires Canonical(s)
    ensures Decimal(ValueOf(s)) == s
  {
    var n := ValueOf(s);
    ValueOfLast(s);
    if |s| == 1 {
      assert s[..0] == [];
    } else {
      var init := s[..|s| - 1];
      assert Canonical(init);
      ValueDecimal(init);
      CanonicalAtLeastTen(s);
      assert n / 10 == ValueOf(init) && n % 10 == DigitValue(s[|s| - 1]);
      assert s == init + [s[|s| - 1]];
    }
  }

  /** Every caption reads back as the change it was made from. */
  lemma ChangeRoundTrip(netChange: int)
    ensures ReadChange(ParseChange(netChange)) == Some(netChange)
  {
    var s := ParseChange(netChange);
    if netChange < 0 {
      assert s[|LOSS_PREFIX|..] == Decimal(-netChange);
      DecimalValue(-netChange);
    } else {
      assert s[|GAIN_PREFIX|..] == Decimal(netChange);
      DecimalValue(netChange);
      assert !(LOSS_PREFIX <= s) by {
        assert s[0] == 'g';
      }
    }
  }

  /** Every string that reads as a change is the caption of that change. */
  lemma CaptionOfReading(s: string)
    requires ReadChange(s).Some?
    ensures ParseChange(ReadChange(s).value) == s
  {
    if LOSS_PREFIX <= s && Canonical(s[|LOSS_PREFIX|..]) && ValueOf(s[|LOSS_PREFIX|..]) > 0 {
      ValueDecimal(s[|LOSS_PREFIX|..]);
      assert s == LOSS_PREFIX + s[|LOSS_PREFIX|..];
    } else {
      ValueDecimal(s[|GAIN_PREFIX|..]);
      assert s == GAIN_PREFIX + s[|GAIN_PREFIX|..];
    }
  }

  /** Different changes get different captions. */
  lemma CaptionsDistinct(a: int, b: int)
    requires a != b
    ensures ParseChange(a) != ParseChange(b)
  {
    ChangeRoundTrip(a);
    ChangeRoundTrip(b);
  }
}
