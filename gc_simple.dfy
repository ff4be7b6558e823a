/** The decision logic of the simple garbage collector: run when enough simulated time has
    passed since its last run, and clean a block whose share of dirty pages reaches a threshold. */
module GarbageCollectorSimple {
  import opened NandCommon

  /** A decimal number as Python's Decimal keeps one that was written in plain notation:
      `coefficient` times 10 to the power of minus `scale` ("0.4" is Dec(4, 1), "0.40" is Dec(40, 2)). */
  datatype Dec = Dec(coefficient: nat, scale: nat)

  function Pow10(n: nat): (r: nat)
    ensures r >= 1
  {
    if n == 0 then 1 else 10 * Pow10(n - 1)
  }

  function DecValue(d: Dec): real
  {
    (d.coefficient as real) / (Pow10(d.scale) as real)
  }

  /** Constructor defaults: wait 500000 microseconds between runs, threshold 0.4. */
  const DefaultMinTime: int := 500000
  const DefaultDirtiness: Dec := Dec(4, 1)

  /** check_gc_run: the time gate. The force flag is accepted and ignored. */
  predicate CheckGcRun(elapsedTime: int, lastRun: int, minTime: int, forceRun: bool)
  {
    elapsedTime - lastRun >= minTime
  }

  /** A forced request gets the same answer as an unforced one; with the time of the last
      run at 0, as it stays, the gate opens exactly once the disk time reaches minTime. */
  lemma CheckGcRunIgnoresForce(elapsedTime: int, lastRun: int, minTime: int)
    ensures CheckGcRun(elapsedTime, lastRun, minTime, true) == CheckGcRun(elapsedTime, lastRun, minTime, false)
    ensures CheckGcRun(elapsedTime, 0, minTime, true) <==> elapsedTime >= minTime
  {
  }

  /** check_gc_block: a forced run takes any block with a dirty page; otherwise the block's
      share of dirty pages must reach the threshold. The share is compared exactly, with both
      fractions brought to a common denominator (CheckGcBlockIsRatioTest). */
  predicate CheckGcBlock(dirty: int, pagesPerBlock: nat, dirtiness: Dec, forceRun: bool)
    requires pagesPerBlock > 0
  {
    if forceRun && dirty > 0 then true
    else Times(Pow10(dirtiness.scale), dirty) >= Times(pagesPerBlock, dirtiness.coefficient)
  }

  /** The integer test is the decimal comparison dirty / pagesPerBlock >= dirtiness. */
  lemma CheckGcBlockIsRatioTest(dirty: int, pagesPerBlock: nat, dirtiness: Dec, forceRun: bool)
    requires pagesPerBlock > 0
    ensures CheckGcBlock(dirty, pagesPerBlock, dirtiness, forceRun)
            <==> (forceRun && dirty > 0)
                 || (dirty as real) / (pagesPerBlock as real) >= DecValue(dirtiness)
  {
    var p := Pow10(dirtiness.scale);
    TimesIsProduct(p, dirty);
    TimesIsProduct(pagesPerBlock, dirtiness.coefficient);
    RatioCompare(dirty as real, pagesPerBlock as real, dirtiness.coefficient as real, p as real);
    assert (dirty * p) as real == (dirty as real) * (p as real);
    assert (dirtiness.coefficient * pagesPerBlock) as real
        == (dirtiness.coefficient as real) * (pagesPerBlock as real);
  }

  lemma RatioCompare(d: real, n: real, k: real, q: real)
    requires n > 0.0 && q > 0.0
    ensures d / n >= k / q <==> d * q >= k * n
  {
    var a := d / n;
    var b := k / q;
    assert a * n == d;
    assert b * q == k;
    ScaleByPositive(a, b, n * q);
    assert a * (n * q) == (a * n) * q;
    assert b * (n * q) == (b * q) * n;
  }

  lemma ScaleByPositive(x: real, y: real, m: real)
    requires m > 0.0
    ensures x >= y <==> x * m >= y * m
  {
    if x >= y {
      assert (x - y) * m >= 0.0;
    } else {
      assert (y - x) * m > 0.0;
    }
  }

  /** get_gc_name: "simple (<mintime>, <dirtiness>)". */
  function GcName(minTime: int, dirtiness: Dec): (r: string)
    ensures |r| > 8 && r[..8] == "simple ("
    ensures r[|r| - 1] == ')'
  {
    "simple (" + IntToString(minTime) + ", " + DecToString(dirtiness) + ")"
  }

  function DigitChar(d: nat): (c: char)
    requires d < 10
    ensures '0' <= c <= '9'
  {
    "0123456789"[d]
  }

  function DigitValue(c: char): nat
  {
    if '0' <= c <= '9' then (c - '0') as nat else 0
  }

  /** Decimal text of a natural number, most significant digit first. */
  function NatToString(n: nat): (s: string)
    ensures |s| >= 1
    ensures forall i :: 0 <= i < |s| ==> '0' <= s[i] <= '9'
  {
    if n < 10 then [DigitChar(n)] else NatToString(n / 10) + [DigitChar(n % 10)]
  }

  /** Reads a string of decimal digits back as a number. */
  function DigitsToNat(s: string): nat
  {
    if |s| == 0 then 0 else 10 * DigitsToNat(s[..|s| - 1]) + DigitValue(s[|s| - 1])
  }

  function IntToString(i: int): string
  {
    if i < 0 then "-" + NatToString(-i) else NatToString(i)
  }

  /** Python's str of a Decimal with exponent -scale, in plain notation. */
  function DecToString(d: Dec): (s: string)
    ensures d.scale > 0 ==> |s| > d.scale && s[|s| - d.scale - 1] == '.'
    ensures d.scale == 0 ==> s == NatToString(d.coefficient)
  {
    var digits := NatToString(d.coefficient);
    if d.scale == 0 then digits
    else if |digits| > d.scale then
      digits[..|digits| - d.scale] + "." + digits[|digits| - d.scale..]
    else
      "0." + seq(d.scale - |digits|, _ => '0') + digits
  }

  /** The text of a number reads back as that number. */
  lemma {:induction false} NatToStringRoundTrip(n: nat)
    ensures DigitsToNat(NatToString(n)) == n
    decreases n
  {
    if n >= 10 {
      var s := NatToString(n);
      assert s[..|s| - 1] == NatToString(n / 10);
      NatToStringRoundTrip(n / 10);
      DigitRoundTrip(n % 10);
    } else {
      DigitRoundTrip(n);
    }
  }

  /** Position of the first `ch` in `s`, or |s| when there is none. */
  function IndexOfChar(s: string, ch: char): (k: nat)
    ensures k <= |s|
    ensures k < |s| ==> s[k] == ch
  {
    if |s| == 0 || s[0] == ch then 0 else 1 + IndexOfChar(s[1..], ch)
  }

  /** Reads an integer's text back: an optional minus sign, then decimal digits. */
  function StringToInt(s: string): int
  {
    if |s| > 0 && s[0] == '-' then -(DigitsToNat(s[1..]) as int) else DigitsToNat(s)
  }

  /** Reads a Decimal's plain text back: the digits on both sides of the point form the
      coefficient, and the number of digits after the point is the scale. */
  function DecFromString(s: string): Dec
  {
    var k := IndexOfChar(s, '.');
    if k == |s| then Dec(DigitsToNat(s), 0)
    else Dec(DigitsToNat(s[..k] + s[k + 1..]), |s| - k - 1)
  }

  /** Splits a collector name "simple (<mintime>, <dirtiness>)" back into its parameters. */
  function ParseGcName(s: string): Option<(int, Dec)>
  {
    if |s| < 9 || s[..8] != "simple (" || s[|s| - 1] != ')' then None
    else
      var inner := s[8..|s| - 1];
      var k := IndexOfChar(inner, ',');
      if k + 2 > |inner| then None
      else Some((StringToInt(inner[..k]), DecFromString(inner[k + 2..])))
  }

  /** The name of a simple collector gives back its minimum time and its dirtiness. */
  lemma GcNameRoundTrip(minTime: int, dirtiness: Dec)
    ensures ParseGcName(GcName(minTime, dirtiness)) == Some((minTime, dirtiness))
  {
    var a := IntToString(minTime);
    var b := DecToString(dirtiness);
    var name := GcName(minTime, dirtiness);
    assert name == "simple (" + a + ", " + b + ")";
    var inner := name[8..|name| - 1];
    assert inner == a + (", " + b);
    IntToStringRoundTrip(minTime);
    IndexAfter(a, ", " + b, ',');
    assert inner[..|a|] == a;
    assert inner[|a| + 2..] == b;
    DecToStringRoundTrip(dirtiness);
  }

  /** Two simple collectors with the same name have the same parameters. */
  lemma GcNameInjective(minTime1: int, dirtiness1: Dec, minTime2: int, dirtiness2: Dec)
    requires GcName(minTime1, dirtiness1) == GcName(minTime2, dirtiness2)
    ensures minTime1 == minTime2 && dirtiness1 == dirtiness2
  {
    GcNameRoundTrip(minTime1, dirtiness1);
    GcNameRoundTrip(minTime2, dirtiness2);
  }

  /** The text of an integer reads back as that integer, and holds no comma. */
  lemma IntToStringRoundTrip(i: int)
    ensures StringToInt(IntToString(i)) == i
    ensures forall k :: 0 <= k < |IntToString(i)| ==> IntToString(i)[k] != ','
  {
    if i < 0 {
      NatToStringRoundTrip(-i);
      NegativeRoundTrip(NatToString(-i), -i);
    } else {
      NatToStringRoundTrip(i);
      assert NatToString(i)[0] != '-';
    }
  }

  lemma NegativeRoundTrip(digits: string, n: nat)
    requires |digits| >= 1 && DigitsToNat(digits) == n
    requires forall k :: 0 <= k < |digits| ==> '0' <= digits[k] <= '9'
    ensures StringToInt("-" + digits) == -(n as int)
    ensures forall k :: 0 <= k < |"-" + digits| ==> ("-" + digits)[k] != ','
  {
    var text := "-" + digits;
    assert text[0] == '-' && text[1..] == digits;
    assert forall k :: 1 <= k < |text| ==> text[k] == digits[k - 1];
  }

  /** The text of a Decimal reads back as that Decimal, scale included ("0.40" is not "0.4"). */
  lemma DecToStringRoundTrip(d: Dec)
    ensures DecFromString(DecToString(d)) == d
  {
    NatToStringRoundTrip(d.coefficient);
    if d.scale == 0 {
      WholeRoundTrip(d);
    } else if |NatToString(d.coefficient)| > d.scale {
      PointInDigitsRoundTrip(d);
    } else {
      LeadingZerosRoundTrip(d);
    }
  }

  lemma WholeRoundTrip(d: Dec)
    requires d.scale == 0 && DigitsToNat(NatToString(d.coefficient)) == d.coefficient
    ensures DecFromString(DecToString(d)) == d
  {
    var digits := NatToString(d.coefficient);
    assert DecToString(d) == digits;
    IndexAfter(digits, "", '.');
    assert digits + "" == digits;
  }

  lemma PointInDigitsRoundTrip(d: Dec)
    requires 0 < d.scale < |NatToString(d.coefficient)|
    requires DigitsToNat(NatToString(d.coefficient)) == d.coefficient
    ensures DecFromString(DecToString(d)) == d
  {
    var digits := NatToString(d.coefficient);
    var k := |digits| - d.scale;
    assert DecToString(d) == digits[..k] + "." + digits[k..];
    PointInside(digits[..k], digits[k..]);
    assert digits[..k] + digits[k..] == digits;
  }

  lemma LeadingZerosRoundTrip(d: Dec)
    requires 0 < d.scale && |NatToString(d.coefficient)| <= d.scale
    requires DigitsToNat(NatToString(d.coefficient)) == d.coefficient
    ensures DecFromString(DecToString(d)) == d
  {
    var digits := NatToString(d.coefficient);
    var zeros := seq(d.scale - |digits|, _ => '0');
    assert DecToString(d) == "0" + "." + (zeros + digits);
    ZeroPadded(zeros, digits);
  }

  /** "0." followed by zeros and digits reads back as the digits, with every digit after
      the point counted in the scale. */
  lemma ZeroPadded(zeros: string, digits: string)
    requires forall i :: 0 <= i < |zeros| ==> zeros[i] == '0'
    ensures DecFromString("0" + "." + (zeros + digits)) == Dec(DigitsToNat(digits), |zeros| + |digits|)
  {
    PointInside("0", zeros + digits);
    ZeroPrefix(zeros, digits);
  }

  lemma ZeroPrefix(zeros: string, digits: string)
    requires forall i :: 0 <= i < |zeros| ==> zeros[i] == '0'
    ensures DigitsToNat("0" + (zeros + digits)) == DigitsToNat(digits)
  {
    assert "0" + (zeros + digits) == ("0" + zeros) + digits;
    LeadingZeros("0" + zeros, digits);
  }

  /** Text with its point after the digits `a` reads back as the digits of `a` and `b`
      with the length of `b` as scale. */
  lemma PointInside(a: string, b: string)
    requires forall i :: 0 <= i < |a| ==> '0' <= a[i] <= '9'
    ensures DecFromString(a + "." + b) == Dec(DigitsToNat(a + b), |b|)
  {
    var s := a + "." + b;
    assert s == a + ("." + b);
    IndexAfter(a, "." + b, '.');
    assert IndexOfChar("." + b, '.') == 0;
    assert s[..|a|] == a && s[|a| + 1..] == b;
  }

  /** Skipping text that holds no `ch`. */
  lemma {:induction false} IndexAfter(a: string, t: string, ch: char)
    requires forall i :: 0 <= i < |a| ==> a[i] != ch
    ensures IndexOfChar(a + t, ch) == |a| + IndexOfChar(t, ch)
    decreases |a|
  {
    if |a| > 0 {
      assert (a + t)[0] == a[0] != ch;
      assert IndexOfChar(a + t, ch) == 1 + IndexOfChar((a + t)[1..], ch);
      assert (a + t)[1..] == a[1..] + t;
      IndexAfter(a[1..], t, ch);
    } else {
      assert a + t == t;
    }
  }

  /** Leading zeros do not change the number a string of digits stands for. */
  lemma {:induction false} LeadingZeros(z: string, t: string)
    requires forall i :: 0 <= i < |z| ==> z[i] == '0'
    ensures DigitsToNat(z + t) == DigitsToNat(t)
    decreases |t|
  {
    if |t| == 0 {
      assert z + t == z;
      ZerosValue(z);
    } else {
      assert (z + t)[..|z + t| - 1] == z + t[..|t| - 1];
      LeadingZeros(z, t[..|t| - 1]);
    }
  }

  lemma {:induction false} ZerosValue(z: string)
    requires forall i :: 0 <= i < |z| ==> z[i] == '0'
    ensures DigitsToNat(z) == 0
    decreases |z|
  {
    if |z| > 0 {
      ZerosValue(z[..|z| - 1]);
    }
  }

  lemma DigitRoundTrip(d: nat)
    requires d < 10
    ensures DigitValue(DigitChar(d)) == d
  {
  }
}
