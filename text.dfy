/** Decimal text: what `operator<<` and the `%u`, `%d` and `%0Nu`
    conversions of `snprintf` produce for non-negative numbers, and the
    inverse reading of a run of digits. */
module Text {
  import opened Errors

  predicate IsDigit(c: char) {
    '0' <= c <= '9'
  }

  predicate AllDigits(s: seq<char>) {
    forall i :: 0 <= i < |s| ==> IsDigit(s[i])
  }

  function DigitChar(d: nat): (c: char)
    requires d < 10
    ensures IsDigit(c)
  {
    (48 + d) as char
  }

  function DigitValue(c: char): (d: nat)
    requires IsDigit(c)
    ensures d < 10
  {
    c as int - 48
  }

  function Pow10(k: nat): (r: nat)
    ensures r >= 1
  {
    if k == 0 then 1 else 10 * Pow10(k - 1)
  }

  /** The shortest decimal representation of `n`. */
  function Decimal(n: nat): (r: seq<char>)
    ensures 1 <= |r| && AllDigits(r)
  {
    if n < 10 then [DigitChar(n)] else Decimal(n / 10) + [DigitChar(n % 10)]
  }

  /** The number a non-empty run of digits stands for. */
  function DigitsValue(s: seq<char>): nat
    requires AllDigits(s)
  {
    if s == [] then 0 else 10 * DigitsValue(s[..|s| - 1]) + DigitValue(s[|s| - 1])
  }

  lemma {:induction false} DigitsValueOfDecimal(n: nat)
    ensures DigitsValue(Decimal(n)) == n
  {
    if n >= 10 {
      var s := Decimal(n);
      assert s[..|s| - 1] == Decimal(n / 10);
      DigitsValueOfDecimal(n / 10);
    }
  }

  lemma {:induction false} DecimalLength(n: nat, k: nat)
    requires 1 <= k && n < Pow10(k)
    ensures |Decimal(n)| <= k
  {
    if n >= 10 {
      assert k >= 2;
      DecimalLength(n / 10, k - 1);
    }
  }

  function Zeros(k: nat): (r: seq<char>)
    ensures |r| == k && AllDigits(r)
  {
    seq(k, _ => '0')
  }

  lemma {:induction false} DigitsValueOfZeros(k: nat)
    ensures DigitsValue(Zeros(k)) == 0
  {
    if k > 0 {
      assert Zeros(k)[..k - 1] == Zeros(k - 1);
      DigitsValueOfZeros(k - 1);
    }
  }

  lemma {:induction false} DigitsValueIgnoresLeadingZeros(k: nat, s: seq<char>)
    requires AllDigits(s)
    ensures AllDigits(Zeros(k) + s) && DigitsValue(Zeros(k) + s) == DigitsValue(s)
    decreases |s|
  {
    var t := Zeros(k) + s;
    assert AllDigits(t) by {
      forall i | 0 <= i < |t| ensures IsDigit(t[i]) {
        if i >= k { assert t[i] == s[i - k]; }
      }
    }
    if s == [] {
      assert t == Zeros(k);
      DigitsValueOfZeros(k);
    } else {
      assert t[..|t| - 1] == Zeros(k) + s[..|s| - 1];
      DigitsValueIgnoresLeadingZeros(k, s[..|s| - 1]);
    }
  }

  /** `n` with at least `width` digits, padded with zeros on the left. */
  function ZeroPadded(n: nat, width: nat): (r: seq<char>)
    ensures AllDigits(r) && |r| >= 1
    ensures |r| == if |Decimal(n)| < width then width else |Decimal(n)|
    ensures DigitsValue(r) == n
  {
    var d := Decimal(n);
    var pad := if |d| < width then width - |d| else 0;
    DigitsValueIgnoresLeadingZeros(pad, d);
    DigitsValueOfDecimal(n);
    Zeros(pad) + d
  }

  /** A value below 10^width always prints in exactly `width` digits. */
  lemma ZeroPaddedWidth(n: nat, width: nat)
    requires 1 <= width && n < Pow10(width)
    ensures |ZeroPadded(n, width)| == width
  {
    DecimalLength(n, width);
  }

  /** What `operator<<` prints for a signed integer. */
  function SignedDecimal(i: int): (r: seq<char>)
  {
    if i < 0 then "-" + Decimal(-i) else Decimal(i)
  }

  /** A non-empty run of digits read back as a number. */
  function ParseDecimal(s: seq<char>): (r: Option<nat>)
    ensures r.Some? <==> 1 <= |s| && AllDigits(s)
  {
    if 1 <= |s| && AllDigits(s) then Some(DigitsValue(s)) else None
  }

  lemma ParseDecimalOfDecimal(n: nat)
    ensures ParseDecimal(Decimal(n)) == Some(n)
  {
    DigitsValueOfDecimal(n);
  }

  lemma ParseDecimalOfZeroPadded(n: nat, width: nat)
    ensures ParseDecimal(ZeroPadded(n, width)) == Some(n)
  {
  }

  /** The length of the longest prefix of `s` made of digits. */
  function LeadingDigits(s: seq<char>): (k: nat)
    ensures k <= |s| && AllDigits(s[..k])
    ensures k < |s| ==> !IsDigit(s[k])
  {
    if s == [] || !IsDigit(s[0]) then 0
    else
      var k := 1 + LeadingDigits(s[1..]);
      assert s[..k] == [s[0]] + s[1..][..k - 1];
      k
  }

  lemma {:induction false} LeadingDigitsOfDigitsThen(d: seq<char>, t: seq<char>)
    requires AllDigits(d)
    requires t != [] && !IsDigit(t[0])
    ensures LeadingDigits(d + t) == |d|
  {
    if d != [] {
      assert (d + t)[1..] == d[1..] + t;
      LeadingDigitsOfDigitsThen(d[1..], t);
    }
  }
}
