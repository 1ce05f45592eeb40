/** The pieces of Python's `str` that the price-analysis script relies on:
    `str(n)` for a non-negative integer, `str.zfill`, slicing a prefix and the
    ordering `<=` on strings (code point by code point, a proper prefix first). */
module Strings {

  predicate IsDigit(c: char) {
    '0' <= c <= '9'
  }

  predicate AllDigits(s: string) {
    forall i :: 0 <= i < |s| ==> IsDigit(s[i])
  }

  function DigitValue(c: char): (d: nat)
    requires IsDigit(c)
    ensures d < 10
  {
    c as int - '0' as int
  }

  function DigitChar(d: nat): (c: char)
    requires d < 10
    ensures IsDigit(c) && DigitValue(c) == d
  {
    ('0' as int + d) as char
  }

  function Pow10(k: nat): (p: nat)
    ensures p >= 1
  {
    if k == 0 then 1 else 10 * Pow10(k - 1)
  }

  /** `str(n)` for a non-negative int: decimal digits without a leading zero. */
  function DecimalString(n: nat): (s: string)
    ensures |s| >= 1 && AllDigits(s)
    ensures s[0] == '0' ==> n == 0
    decreases n
  {
    if n < 10 then [DigitChar(n)] else DecimalString(n / 10) + [DigitChar(n % 10)]
  }

  /** The number a string of decimal digits denotes; leading zeros add nothing. */
  function DecimalValue(s: string): nat
    requires AllDigits(s)
  {
    if s == [] then 0 else DecimalValue(s[..|s| - 1]) * 10 + DigitValue(s[|s| - 1])
  }

  /** Reading back what `str(n)` wrote gives n. */
  lemma {:induction false} DecimalRoundTrip(n: nat)
    ensures DecimalValue(DecimalString(n)) == n
    decreases n
  {
    if n >= 10 {
      var s := DecimalString(n);
      assert s[..|s| - 1] == DecimalString(n / 10);
      DecimalRoundTrip(n / 10);
    }
  }

  /** A string of k digits denotes a number below 10^k. */
  lemma {:induction false} DecimalValueBound(s: string)
    requires AllDigits(s)
    ensures DecimalValue(s) < Pow10(|s|)
  {
    if s != [] {
      DecimalValueBound(s[..|s| - 1]);
    }
  }

  /** `str(n)` has at most k characters exactly when n < 10^k (k >= 1). */
  lemma {:induction false} DecimalStringLength(n: nat, k: nat)
    requires k >= 1
    ensures |DecimalString(n)| <= k <==> n < Pow10(k)
    decreases n
  {
    if n < Pow10(k) {
      if n >= 10 {
        assert Pow10(1) == 10;
        DecimalStringLength(n / 10, k - 1);
      }
    } else {
      DecimalValueBound(DecimalString(n));
      DecimalRoundTrip(n);
      if |DecimalString(n)| <= k {
        Pow10Monotonic(|DecimalString(n)|, k);
      }
    }
  }

  lemma {:induction false} Pow10Monotonic(i: nat, j: nat)
    requires i <= j
    ensures Pow10(i) <= Pow10(j)
    decreases j
  {
    if i < j {
      Pow10Monotonic(i, j - 1);
    }
  }

  /** The leading k digits count in units of 10^(|s| - k). */
  lemma {:induction false} DecimalValueSplit(s: string, k: nat)
    requires AllDigits(s) && k <= |s|
    ensures DecimalValue(s) == DecimalValue(s[..k]) * Pow10(|s| - k) + DecimalValue(s[k..])
    decreases |s| - k
  {
    if k < |s| {
      var init := s[..|s| - 1];
      DecimalValueSplit(init, k);
      assert init[..k] == s[..k];
      assert s[k..][..|s[k..]| - 1] == init[k..];
      var a, p, b, d := DecimalValue(s[..k]), Pow10(|init| - k), DecimalValue(init[k..]), DigitValue(s[|s| - 1]);
      var v, whole, tail, scale := DecimalValue(init), DecimalValue(s), DecimalValue(s[k..]), Pow10(|s| - k);
      assert v == a * p + b;
      assert whole == v * 10 + d;
      assert tail == b * 10 + d;
      assert scale == 10 * p;
      ShiftByTen(v, a, p, b, d, whole, tail, scale);
    } else {
      assert s[..k] == s && s[k..] == [];
    }
  }

  lemma ShiftByTen(v: int, a: int, p: int, b: int, d: int, whole: int, tail: int, scale: int)
    requires v == a * p + b && whole == v * 10 + d
    requires tail == b * 10 + d && scale == 10 * p
    ensures whole == a * scale + tail
  {
  }

  /** k copies of c, Python's `c * k`. */
  function Repeat(c: char, k: nat): (r: string)
    ensures |r| == k && forall i :: 0 <= i < k ==> r[i] == c
  {
    seq(k, _ => c)
  }

  /** k copies of '0'. */
  function Zeros(k: nat): (z: string)
    ensures |z| == k && AllDigits(z)
    ensures forall i :: 0 <= i < k ==> z[i] == '0'
  {
    Repeat('0', k)
  }

  /** Zeros put in front of a digit string do not change the number it denotes. */
  lemma {:induction false} LeadingZerosKeepValue(k: nat, s: string)
    requires AllDigits(s)
    ensures AllDigits(Zeros(k) + s)
    ensures DecimalValue(Zeros(k) + s) == DecimalValue(s)
    decreases |s|
  {
    var t := Zeros(k) + s;
    if s == [] {
      assert t == Zeros(k);
      ZerosValue(k);
    } else {
      assert t[..|t| - 1] == Zeros(k) + s[..|s| - 1];
      LeadingZerosKeepValue(k, s[..|s| - 1]);
    }
  }

  lemma {:induction false} ZerosValue(k: nat)
    ensures DecimalValue(Zeros(k)) == 0
  {
    if k > 0 {
      assert Zeros(k)[..k - 1] == Zeros(k - 1);
      ZerosValue(k - 1);
    }
  }

  predicate IsSign(c: char) {
    c == '+' || c == '-'
  }

  /** Python's `s.zfill(width)`: left-pad with '0' up to width characters,
      putting the zeros after a leading sign; a string already that long is
      returned as it is, never cut. */
  function ZFill(s: string, width: nat): (r: string)
    ensures |r| == if |s| < width then width else |s|
  {
    if |s| >= width then s
    else if |s| > 0 && IsSign(s[0]) then [s[0]] + Zeros(width - |s|) + s[1..]
    else Zeros(width - |s|) + s
  }

  /** An unsigned string shorter than width becomes width - |s| zeros followed by s. */
  lemma ZFillPadsUnsigned(s: string, width: nat)
    requires |s| <= width
    requires s == [] || !IsSign(s[0])
    ensures |ZFill(s, width)| == width
    ensures forall i :: 0 <= i < width - |s| ==> ZFill(s, width)[i] == '0'
    ensures ZFill(s, width)[width - |s|..] == s
  {
  }

  /** A signed string keeps its sign first, then the zeros, then its digits. */
  lemma ZFillPadsSigned(s: string, width: nat)
    requires 0 < |s| < width && IsSign(s[0])
    ensures ZFill(s, width)[0] == s[0]
    ensures forall i :: 1 <= i <= width - |s| ==> ZFill(s, width)[i] == '0'
    ensures ZFill(s, width)[width - |s| + 1..] == s[1..]
  {
  }

  /** zfill never truncates, and pads nothing once the width is reached. */
  lemma ZFillNeverTruncates(s: string, width: nat)
    requires |s| >= width
    ensures ZFill(s, width) == s
  {
  }

  lemma ZFillIdempotent(s: string, width: nat)
    ensures ZFill(ZFill(s, width), width) == ZFill(s, width)
  {
  }

  /** Padding a digit string keeps the number it denotes. */
  lemma ZFillKeepsValue(s: string, width: nat)
    requires AllDigits(s)
    ensures AllDigits(ZFill(s, width))
    ensures DecimalValue(ZFill(s, width)) == DecimalValue(s)
  {
    if |s| < width {
      LeadingZerosKeepValue(width - |s|, s);
    }
  }

  /** Python's `s[:2]`: the first two characters, or all of s when shorter. */
  function Prefix2(s: string): (p: string)
    ensures |p| == if |s| < 2 then |s| else 2
    ensures p <= s
  {
    if |s| <= 2 then s else s[..2]
  }

  /** Python's `a <= b` on str: compare code points from the left; a proper
      prefix comes first. */
  predicate LexLe(a: string, b: string) {
    |a| == 0 || (|b| > 0 && (a[0] < b[0] || (a[0] == b[0] && LexLe(a[1..], b[1..]))))
  }

  lemma {:induction false} LexLeReflexive(a: string)
    ensures LexLe(a, a)
  {
    if |a| > 0 {
      LexLeReflexive(a[1..]);
    }
  }

  lemma {:induction false} LexLeAntisymmetric(a: string, b: string)
    requires LexLe(a, b) && LexLe(b, a)
    ensures a == b
  {
    if |a| > 0 && |b| > 0 {
      LexLeAntisymmetric(a[1..], b[1..]);
      assert a == [a[0]] + a[1..] && b == [b[0]] + b[1..];
    }
  }

  lemma {:induction false} LexLeTransitive(a: string, b: string, c: string)
    requires LexLe(a, b) && LexLe(b, c)
    ensures LexLe(a, c)
  {
    if |a| > 0 && |b| > 0 && |c| > 0 && a[0] == b[0] == c[0] {
      LexLeTransitive(a[1..], b[1..], c[1..]);
    }
  }

  lemma {:induction false} LexLeTotal(a: string, b: string)
    ensures LexLe(a, b) || LexLe(b, a)
  {
    if |a| > 0 && |b| > 0 && a[0] == b[0] {
      LexLeTotal(a[1..], b[1..]);
    }
  }

  /** A prefix is never greater than the string it starts. */
  lemma {:induction false} PrefixLexLe(a: string, b: string)
    requires a <= b
    ensures LexLe(a, b)
  {
    if |a| > 0 {
      PrefixLexLe(a[1..], b[1..]);
    }
  }
}
