/**
 Decimal digit strings as the sensor frame carries them: six digit nibbles,
 most significant first. The firmware weighs digit `i` (counted from the most
 significant) with 10^(5-i) and sums; `DigitValue` is that sum for any length.
 Digit nibbles are not range-checked by the firmware, so digits here are any
 naturals and the lemmas say which facts need them to be below ten.
 */
module Decimal {

  /** Powers of ten. */
  function Pow10(n: nat): (r: nat)
    ensures r >= 1
  {
    if n == 0 then 1 else 10 * Pow10(n - 1)
  }

  /** Sum of `ds[i] * 10^(|ds| - 1 - i)`: the most significant digit comes first. */
  function DigitValue(ds: seq<nat>): (v: nat)
    ensures AllDecimal(ds) ==> v < Pow10(|ds|)
  {
    if |ds| == 0 then 0
    else
      DigitTermBound(ds[0], Pow10(|ds| - 1));
      ds[0] * Pow10(|ds| - 1) + DigitValue(ds[1..])
  }

  /** A decimal digit weighted by `p` contributes at most `9 * p`. */
  lemma DigitTermBound(d: nat, p: nat)
    ensures d < 10 ==> d * p <= 9 * p
  {
    if d < 10 {
      MulLeftMonotone(d, 9, p);
    }
  }

  /** Every digit is a decimal digit. */
  predicate AllDecimal(ds: seq<nat>)
  {
    forall i :: 0 <= i < |ds| ==> ds[i] < 10
  }

  /** The `n` least significant decimal digits of `m`, most significant first. */
  function DecimalDigits(m: nat, n: nat): (ds: seq<nat>)
    ensures |ds| == n
    ensures AllDecimal(ds)
  {
    if n == 0 then [] else DecimalDigits(m / 10, n - 1) + [m % 10]
  }

  /** Appending a digit shifts the value one decimal place up. */
  lemma {:induction false} DigitValueAppend(ds: seq<nat>, d: nat)
    ensures DigitValue(ds + [d]) == DigitValue(ds) * 10 + d
  {
    if |ds| == 0 {
      assert ds + [d] == [d];
      assert [d][1..] == [];
    } else {
      var p := Pow10(|ds| - 1);
      assert (ds + [d])[0] == ds[0];
      assert (ds + [d])[1..] == ds[1..] + [d];
      DigitValueAppend(ds[1..], d);
      calc {
        DigitValue(ds + [d]);
        ds[0] * Pow10(|ds|) + DigitValue(ds[1..] + [d]);
        ds[0] * (10 * p) + DigitValue(ds[1..]) * 10 + d;
        { assert ds[0] * (10 * p) == (ds[0] * p) * 10; }
        (ds[0] * p + DigitValue(ds[1..])) * 10 + d;
        DigitValue(ds) * 10 + d;
      }
    }
  }

  /** Writing a number below 10^n as n digits and summing them back gives the number. */
  lemma {:induction false} DecimalDigitsRoundTrip(m: nat, n: nat)
    requires m < Pow10(n)
    ensures DigitValue(DecimalDigits(m, n)) == m
  {
    if n == 0 {
    } else {
      assert m / 10 < Pow10(n - 1);
      DecimalDigitsRoundTrip(m / 10, n - 1);
      DigitValueAppend(DecimalDigits(m / 10, n - 1), m % 10);
    }
  }

  /** A string of decimal digits is recovered from its value: no two decimal digit
      strings of the same length have the same value. */
  lemma {:induction false} DigitValueRoundTrip(ds: seq<nat>)
    requires AllDecimal(ds)
    ensures DecimalDigits(DigitValue(ds), |ds|) == ds
  {
    if |ds| == 0 {
    } else {
      var init := ds[..|ds| - 1];
      var d := ds[|ds| - 1];
      assert ds == init + [d];
      DigitValueAppend(init, d);
      assert DigitValue(ds) / 10 == DigitValue(init);
      assert DigitValue(ds) % 10 == d;
      DigitValueRoundTrip(init);
    }
  }

  /** With every digit at most 15 (one nibble), nine times the value is at most
      15 * (10^n - 1); for six digits the value is at most 1 666 665. */
  lemma {:induction false} DigitValueBound(ds: seq<nat>)
    requires forall i :: 0 <= i < |ds| ==> ds[i] < 16
    ensures 9 * DigitValue(ds) <= 15 * (Pow10(|ds|) - 1)
  {
    if |ds| == 0 {
    } else {
      var p := Pow10(|ds| - 1);
      var rest := DigitValue(ds[1..]);
      var lead := ds[0] * p;
      DigitValueBound(ds[1..]);
      MulLeftMonotone(ds[0], 15, p);
      assert DigitValue(ds) == lead + rest;
      assert Pow10(|ds|) == 10 * p;
      assert 9 * lead <= 135 * p;
      assert 9 * rest <= 15 * p - 15;
    }
  }

  lemma MulLeftMonotone(a: nat, b: nat, p: nat)
    requires a <= b
    ensures a * p <= b * p
  {
  }
}
